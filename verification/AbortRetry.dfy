/** Recovery of an explicit transaction after ABORTED (internal/mycli/explicit_abort_retry.go). */
module AbortRetry {
  import opened TableIds

  // recoverExplicitAbortLocked, with the helpers of retry_aborts.go: reconstruct the physical
  // transaction, wait without the lock, replay the journal, at most 49 times for one owner. Every
  // stretch under the lock is one function; between them anything may happen.

  const MAX_RECONSTRUCTIONS := 49

  /** A physical transaction: which attempt it is and the journal entries executed on it. */
  datatype Physical = Physical(attempt: nat, applied: seq<nat>)

  datatype Owner = Owner(
    id: nat, readWrite: bool, retryAborts: bool, abortRetries: nat, attempt: nat,
    txn: Option<Physical>, journal: seq<nat>, marker: bool, recovering: bool,
    expirePending: bool, deadline: Option<int>)

  /** `rebuilt` lists the owners of all reconstructions, oldest first. Ids are never reused. */
  datatype State = State(owner: Option<Owner>, now: int, nextId: nat, rebuilt: seq<nat>)

  /** How replaying the journal ends: fully, or after some entries with an error that is
      another abort or something else (a fingerprint mismatch, say). */
  datatype Replay = Complete | Stopped(after: nat, aborted: bool)

  /** What the outside does during one stretch under the lock. */
  datatype Env = Env(
    canceled: bool,            // the caller's context, when the loop starts
    callerDeadline: Option<int>,
    constructs: bool,          // the constructor RPC succeeds
    takes: nat,                // and takes so long
    waitFails: bool,           // the wait ended with an error
    replay: Replay,
    canceledLate: bool)        // the caller's context, after a complete replay

  datatype Verdict = Recovered | Failed | Again | Wait(delay: int)

  // ---- Deadlines and waiting ----

  predicate Exhausted(o: Owner, now: int) {
    o.expirePending || (o.deadline.Some? && o.deadline.value <= now)
  }

  function Earlier(a: Option<int>, b: Option<int>): Option<int> {
    if a.None? then b else if b.None? || a.value <= b.value then a else b
  }

  /** How long backoff may wait; None when nothing limits it. */
  function WaitBudget(s: State, caller: Option<int>): (r: Option<int>)
    ensures r.Some? ==> r.value >= 0
  {
    if s.owner.Some? && Exhausted(s.owner.value, s.now) then Some(0)
    else
      var limit := Earlier(caller, if s.owner.Some? then s.owner.value.deadline else None);
      if limit.None? then None
      else if limit.value < s.now then Some(0) else Some(limit.value - s.now)
  }

  function ClampDelay(delay: int, budget: Option<int>): int {
    if delay < 0 then 0
    else match budget
         case None => delay
         case Some(b) => if b <= 0 then 0 else if delay > b then b else delay
  }

  /** The clamped wait never runs past the caller's or the owner's deadline, and is the asked
      delay whenever that fits. */
  lemma WaitEndsInTime(s: State, caller: Option<int>, delay: int)
    requires WaitBudget(s, caller) != Some(0)
    ensures var d := ClampDelay(delay, WaitBudget(s, caller));
      && d >= 0
      && (caller.Some? ==> s.now + d <= caller.value)
      && (s.owner.Some? && s.owner.value.deadline.Some? ==> s.now + d <= s.owner.value.deadline.value)
      && (d < delay ==> d > 0 && (Some(s.now + d) == caller || Some(s.now + d) == s.owner.value.deadline))
  {
  }

  // ---- Stretches under the lock ----

  function Retire(s: State): State {
    s.(owner := None)
  }

  /** The owner's own failure handling: recovery marker, rollback, or left as it is. */
  function HandleFailure(s: State): State
    requires s.owner.Some?
  {
    var o := s.owner.value;
    if o.marker && !o.recovering then s.(owner := Some(o.(txn := None, recovering := true)))
    else if !o.readWrite then s
    else if o.txn.None? && !o.recovering then s
    else Retire(s)
  }

  /** Drop the physical handle, construct a new one on the same owner. */
  function Reconstruct(s: State, env: Env): (State, bool)
    requires s.owner.Some?
  {
    var o := s.owner.value;
    var later := s.(now := s.now + env.takes);
    if !o.readWrite then (s, false)
    else if !env.constructs then (Retire(later), false)
    else (later.(owner := Some(o.(txn := Some(Physical(o.attempt + 1, [])), attempt := o.attempt + 1))), true)
  }

  /** From the top of the loop to the unlocked wait. */
  function Prepare(s: State, env: Env, delay: int): (State, Verdict)
    requires s.owner.Some?
  {
    if env.canceled || WaitBudget(s, env.callerDeadline) == Some(0) then (Retire(s), Failed)
    else
      var (built, ok) := Reconstruct(s, env);
      if !ok then (built, Failed)
      else
        var o := built.owner.value;
        var counted := built.(owner := Some(o.(abortRetries := o.abortRetries + 1)), rebuilt := built.rebuilt + [o.id]);
        var budget := WaitBudget(counted, env.callerDeadline);
        if budget == Some(0) then (Retire(counted), Failed) else (counted, Wait(ClampDelay(delay, budget)))
  }

  /** Eligibility, delivered output and the budget are settled before the loop. */
  predicate Eligible(s: State, aborted: bool) {
    s.owner.Some? && s.owner.value.retryAborts && s.owner.value.readWrite && aborted
  }

  function Begin(s: State, aborted: bool, delivered: bool, env: Env, delay: int): (State, Verdict) {
    if !Eligible(s, aborted) then (s, Failed)
    else if delivered || s.owner.value.abortRetries >= MAX_RECONSTRUCTIONS then (HandleFailure(s), Failed)
    else Prepare(s, env, delay)
  }

  function ReplayOn(o: Owner, replay: Replay): Owner
    requires o.txn.Some?
  {
    var p := o.txn.value;
    var n := if replay.Complete? || replay.after > |o.journal| then |o.journal| else replay.after;
    o.(txn := Some(p.(applied := p.applied + o.journal[..n])))
  }

  predicate Attached(s: State, id: nat) {
    s.owner.Some? && s.owner.value.id == id
  }

  /** From waking up to a result, or to the top of the loop. */
  function Wake(s: State, id: nat, env: Env): (State, Verdict) {
    if !Attached(s, id) then (s, Failed)
    else if env.waitFails || Exhausted(s.owner.value, s.now) || s.owner.value.txn.None? then (Retire(s), Failed)
    else
      var o := s.owner.value;
      if o.journal == [] || env.replay.Complete? then
        var done := s.(owner := Some(ReplayOn(o, Complete)));
        if env.canceledLate then (Retire(done), Failed) else (done, Recovered)
      else
        var partial := s.(owner := Some(ReplayOn(o, env.replay)));
        if !env.replay.aborted then (Retire(partial), Failed)
        else if o.abortRetries >= MAX_RECONSTRUCTIONS then (HandleFailure(partial), Failed)
        else (partial, Again)
  }

  /** One whole stretch after a wait: waking up and, after another abort, preparing the next. */
  function Resume(s: State, id: nat, env: Env, delay: int): (State, Verdict) {
    var (woken, verdict) := Wake(s, id, env);
    if verdict.Again? then Prepare(woken, env, delay) else (woken, verdict)
  }

  // ---- Any number of recoveries, and anything else, interleaved ----

  datatype Thread = Waiting(id: nat) | Finished(recovered: bool)

  datatype System = System(state: State, threads: seq<Thread>)

  datatype Step =
    | Call(aborted: bool, delivered: bool, env: Env, delay: int)
    | Continue(thread: nat, env: Env, delay: int)
    | Other(state: State)      // everything else the program does between stretches

  /** Other code may replace, retire or change the owner and its physical transaction, but
      leaves the abort budget of a live owner alone, and retired owners do not come back. */
  predicate OtherCode(s: State, s': State) {
    && s'.rebuilt == s.rebuilt && s.nextId <= s'.nextId && s.now <= s'.now
    && (s'.owner.Some? ==>
          if Attached(s, s'.owner.value.id) then s'.owner.value.abortRetries == s.owner.value.abortRetries
          else s.nextId <= s'.owner.value.id < s'.nextId && s'.owner.value.abortRetries == 0)
  }

  function ThreadOf(v: Verdict, id: nat): Thread {
    if v.Wait? then Waiting(id) else Finished(v.Recovered?)
  }

  predicate CanStep(y: System, step: Step) {
    match step
    case Call(_, _, _, _) => true
    case Continue(i, _, _) => i < |y.threads| && y.threads[i].Waiting?
    case Other(s') => OtherCode(y.state, s')
  }

  function DoStep(y: System, step: Step): System
    requires CanStep(y, step)
  {
    match step
    case Call(aborted, delivered, env, delay) =>
      var (s, v) := Begin(y.state, aborted, delivered, env, delay);
      System(s, y.threads + [ThreadOf(v, if y.state.owner.Some? then y.state.owner.value.id else 0)])
    case Continue(i, env, delay) =>
      var (s, v) := Resume(y.state, y.threads[i].id, env, delay);
      System(s, y.threads[i := ThreadOf(v, y.threads[i].id)])
    case Other(s') => y.(state := s')
  }

  ghost predicate IsRun(ys: seq<System>, steps: seq<Step>) {
    && |ys| == |steps| + 1 && ys[0] == System(State(None, 0, 0, []), [])
    && forall k :: 0 <= k < |steps| ==> CanStep(ys[k], steps[k]) && ys[k + 1] == DoStep(ys[k], steps[k])
  }

  // ---- The budget ----

  function Count(ids: seq<nat>, id: nat): nat {
    if ids == [] then 0 else Count(ids[..|ids| - 1], id) + if ids[|ids| - 1] == id then 1 else 0
  }

  lemma CountSnoc(ids: seq<nat>, more: nat, id: nat)
    ensures Count(ids + [more], id) == Count(ids, id) + if more == id then 1 else 0
  {
    assert (ids + [more])[..|ids|] == ids;
  }

  ghost predicate Counted(s: State) {
    && (forall id :: Count(s.rebuilt, id) <= MAX_RECONSTRUCTIONS)
    && (forall id :: id >= s.nextId ==> Count(s.rebuilt, id) == 0)
    && (s.owner.Some? ==>
          s.owner.value.id < s.nextId
          && Count(s.rebuilt, s.owner.value.id) == s.owner.value.abortRetries)
  }

  lemma PrepareCounts(s: State, env: Env, delay: int)
    requires Counted(s) && s.owner.Some? && s.owner.value.abortRetries < MAX_RECONSTRUCTIONS
    ensures Counted(Prepare(s, env, delay).0)
    ensures var (s', v) := Prepare(s, env, delay);
      && s'.now >= s.now && s'.nextId == s.nextId
      && (s'.owner.Some? ==>
            Attached(s', s.owner.value.id)
            && s'.owner.value.abortRetries >= s.owner.value.abortRetries)
      && (v.Wait? ==> s'.rebuilt == s.rebuilt + [s.owner.value.id] && Attached(s', s.owner.value.id)
                      && s'.owner.value.abortRetries == s.owner.value.abortRetries + 1)
      && !v.Recovered? && !v.Again?
  {
    forall id
      ensures Count(s.rebuilt + [s.owner.value.id], id)
           == Count(s.rebuilt, id) + if s.owner.value.id == id then 1 else 0
    {
      CountSnoc(s.rebuilt, s.owner.value.id, id);
    }
  }

  lemma WakeCounts(s: State, id: nat, env: Env)
    requires Counted(s)
    ensures var (s', v) := Wake(s, id, env);
      Counted(s') && s'.rebuilt == s.rebuilt && s'.now == s.now && s'.nextId == s.nextId && !v.Wait?
      && (s'.owner.Some? ==>
            Attached(s, s'.owner.value.id)
            && s'.owner.value.abortRetries == s.owner.value.abortRetries)
      && (v.Again? ==> Attached(s', id) && s'.owner.value.abortRetries < MAX_RECONSTRUCTIONS)
  {
  }

  lemma BudgetStep(y: System, step: Step)
    requires Counted(y.state) && CanStep(y, step)
    ensures Counted(DoStep(y, step).state)
  {
    hide Prepare;
    hide Wake;
    match step
    case Call(aborted, delivered, env, delay) =>
      if Eligible(y.state, aborted) && y.state.owner.value.abortRetries < MAX_RECONSTRUCTIONS {
        PrepareCounts(y.state, env, delay);
      }
    case Continue(i, env, delay) =>
      WakeCounts(y.state, y.threads[i].id, env);
      var (woken, v) := Wake(y.state, y.threads[i].id, env);
      if v.Again? {
        PrepareCounts(woken, env, delay);
      }
    case Other(s') =>
  }

  /** Over all recoveries and every interleaving, no owner is reconstructed more than 49 times,
      and a live owner's counter is exactly the number of its reconstructions. */
  lemma {:induction false} AtMost49(ys: seq<System>, steps: seq<Step>, k: nat)
    requires IsRun(ys, steps) && k <= |steps|
    ensures forall id :: Count(ys[k].state.rebuilt, id) <= 49
    ensures ys[k].state.owner.Some? ==>
      Count(ys[k].state.rebuilt, ys[k].state.owner.value.id) == ys[k].state.owner.value.abortRetries
    ensures Counted(ys[k].state)
  {
    hide DoStep;
    hide CanStep;
    if k > 0 {
      AtMost49(ys, steps, k - 1);
      BudgetStep(ys[k - 1], steps[k - 1]);
    }
  }

  // ---- Termination: how often one call comes back from its wait ----

  function Resumptions(steps: seq<Step>, thread: nat): nat {
    if steps == [] then 0
    else Resumptions(steps[..|steps| - 1], thread)
         + if steps[|steps| - 1].Continue? && steps[|steps| - 1].thread == thread then 1 else 0
  }

  lemma StepReconstructs(y: System, step: Step, i: nat)
    requires Counted(y.state) && CanStep(y, step) && i < |DoStep(y, step).threads|
    ensures |y.threads| <= |DoStep(y, step).threads| <= |y.threads| + 1
    ensures i < |y.threads| && !(step.Continue? && step.thread == i) ==> DoStep(y, step).threads[i] == y.threads[i]
    ensures i < |y.threads| && step.Continue? && step.thread == i && DoStep(y, step).threads[i].Waiting? ==>
      y.threads[i] == DoStep(y, step).threads[i] && DoStep(y, step).state.rebuilt == y.state.rebuilt + [y.threads[i].id]
    ensures i >= |y.threads| ==> !step.Continue?
    ensures i >= |y.threads| && DoStep(y, step).threads[i].Waiting? ==>
      DoStep(y, step).state.rebuilt == y.state.rebuilt + [DoStep(y, step).threads[i].id]
  {
    hide Prepare;
    hide Wake;
    match step
    case Call(aborted, delivered, env, delay) =>
      if Eligible(y.state, aborted) && y.state.owner.value.abortRetries < MAX_RECONSTRUCTIONS {
        PrepareCounts(y.state, env, delay);
      }
    case Continue(t, env, delay) =>
      WakeCounts(y.state, y.threads[t].id, env);
      var (woken, v) := Wake(y.state, y.threads[t].id, env);
      if v.Again? {
        PrepareCounts(woken, env, delay);
      }
    case Other(s') =>
  }

  lemma RebuiltGrows(y: System, step: Step, id: nat)
    requires Counted(y.state) && CanStep(y, step)
    ensures Count(DoStep(y, step).state.rebuilt, id) >= Count(y.state.rebuilt, id)
  {
    if y.state.owner.Some? {
      CountSnoc(y.state.rebuilt, y.state.owner.value.id, id);
    }
  }

  /** A call that is still waiting has been accounted for once when it began and once each
      time it came back. */
  lemma {:induction false} WaitingIsPaid(ys: seq<System>, steps: seq<Step>, k: nat, i: nat)
    requires IsRun(ys, steps) && k <= |steps|
    ensures i >= |ys[k].threads| ==> Resumptions(steps[..k], i) == 0
    ensures i < |ys[k].threads| && ys[k].threads[i].Waiting? ==>
      Resumptions(steps[..k], i) + 1 <= Count(ys[k].state.rebuilt, ys[k].threads[i].id)
    ensures i < |ys[k].threads| && ys[k].threads[i].Finished? ==> Resumptions(steps[..k], i) <= MAX_RECONSTRUCTIONS
  {
    hide DoStep;
    if k > 0 {
      var y, step := ys[k - 1], steps[k - 1];
      WaitingIsPaid(ys, steps, k - 1, i);
      AtMost49(ys, steps, k - 1);
      assert steps[..k][..k - 1] == steps[..k - 1];
      GrowingThreads(y, step);
      if i < |ys[k].threads| {
        StepReconstructs(y, step, i);
        hide CanStep;
        var id := if ys[k].threads[i].Waiting? then ys[k].threads[i].id else 0;
        RebuiltGrows(y, step, id);
        CountSnoc(y.state.rebuilt, id, id);
      }
    }
  }

  lemma GrowingThreads(y: System, step: Step)
    requires CanStep(y, step)
    ensures |y.threads| <= |DoStep(y, step).threads|
  {
    hide Begin;
    hide Resume;
  }

  /** Every call ends after at most 49 waits, however the waits are interleaved. */
  lemma RecoveryTerminates(ys: seq<System>, steps: seq<Step>, i: nat)
    requires IsRun(ys, steps)
    ensures Resumptions(steps, i) <= 49
  {
    hide DoStep;
    hide CanStep;
    WaitingIsPaid(ys, steps, |steps|, i);
    AtMost49(ys, steps, |steps|);
    assert steps[..|steps|] == steps;
  }

  // ---- Other owners, and what success means ----

  /** The stretch in which call i comes back from its wait, for the owner it waits for. */
  ghost predicate ComesBack(ys: seq<System>, steps: seq<Step>, k: nat, i: nat)
    requires IsRun(ys, steps) && k < |steps|
  {
    steps[k].Continue? && steps[k].thread == i && i < |ys[k].threads| && ys[k].threads[i].Waiting?
  }

  /** The call that became thread i, made at step c while owner `id` was attached and eligible. */
  ghost predicate CalledFor(ys: seq<System>, steps: seq<Step>, c: nat, i: nat, id: nat)
    requires IsRun(ys, steps) && c < |steps|
  {
    && steps[c].Call? && |ys[c].threads| == i && !steps[c].delivered
    && Eligible(ys[c].state, steps[c].aborted) && ys[c].state.owner.value.id == id
  }

  lemma PrepareEnds(s: State, env: Env, delay: int)
    requires s.owner.Some?
    ensures var (s', v) := Prepare(s, env, delay);
      && (v.Wait? || v.Failed?) && s'.nextId == s.nextId && (v.Wait? ==> s'.owner.Some?)
      && (s'.owner.Some? ==> Attached(s', s.owner.value.id) && s'.owner.value.journal == s.owner.value.journal)
  {
  }

  lemma WakeEnds(s: State, id: nat, env: Env)
    ensures var (s', v) := Wake(s, id, env);
      && s'.nextId == s.nextId && !v.Wait?
      && (!Attached(s, id) ==> s' == s && v.Failed?)
      && (Attached(s, id) && s'.owner.Some? ==> Attached(s', id) && s'.owner.value.journal == s.owner.value.journal)
      && (v.Again? ==> Attached(s, id) && s'.owner.Some?)
      && (v.Recovered? ==>
            Attached(s, id) && s.owner.value.txn.Some?
            && s' == s.(owner := Some(ReplayOn(s.owner.value, Complete))))
  {
  }

  lemma CallStep(y: System, step: Step)
    requires step.Call?
    ensures var y' := DoStep(y, step);
      && |y'.threads| == |y.threads| + 1 && y'.threads[..|y.threads|] == y.threads
      && y'.threads[|y.threads|] != Finished(true)
      && (y'.threads[|y.threads|].Waiting? ==>
            !step.delivered && Eligible(y.state, step.aborted) && y'.threads[|y.threads|].id == y.state.owner.value.id)
      && (step.delivered ==> y'.state.rebuilt == y.state.rebuilt)
  {
    hide Prepare;
    if Eligible(y.state, step.aborted) {
      PrepareEnds(y.state, step.env, step.delay);
    }
  }

  lemma ContinueThreads(y: System, step: Step, i: nat)
    requires CanStep(y, step) && !step.Call? && i < |y.threads|
    ensures var y' := DoStep(y, step);
      && |y'.threads| == |y.threads|
      && (!(step.Continue? && step.thread == i) ==> y'.threads[i] == y.threads[i])
      && (y'.threads[i].Waiting? ==> y'.threads[i] == y.threads[i])
  {
    hide Resume;
  }

  lemma FinishedStep(y: System, step: Step, i: nat)
    requires CanStep(y, step) && i < |y.threads| && y.threads[i].Finished?
    ensures i < |DoStep(y, step).threads| && DoStep(y, step).threads[i] == y.threads[i]
  {
    hide Prepare; hide Wake;
    if step.Call? {
      CallStep(y, step);
      assert DoStep(y, step).threads[i] == DoStep(y, step).threads[..|y.threads|][i];
    } else {
      ContinueThreads(y, step, i);
    }
  }

  /** A call's result never changes, and nothing ever resumes it. */
  lemma {:induction false} FinishedStays(ys: seq<System>, steps: seq<Step>, m: nat, n: nat, i: nat)
    requires IsRun(ys, steps) && m <= n <= |steps| && i < |ys[m].threads| && ys[m].threads[i].Finished?
    ensures i < |ys[n].threads| && ys[n].threads[i] == ys[m].threads[i]
  {
    hide CanStep; hide DoStep;
    if m < n {
      FinishedStays(ys, steps, m, n - 1, i);
      FinishedStep(ys[n - 1], steps[n - 1], i);
    }
  }

  /** In every run, a recovery that wakes up to another owner, or none, changes nothing and fails;
      one that wakes up to its own owner leaves that owner, journal intact, or none. */
  lemma OtherOwnerUntouched(ys: seq<System>, steps: seq<Step>, k: nat, i: nat)
    requires IsRun(ys, steps) && k < |steps| && ComesBack(ys, steps, k, i)
    ensures var id, s, s' := ys[k].threads[i].id, ys[k].state, ys[k + 1].state;
      if Attached(s, id) then s'.owner.Some? ==> Attached(s', id) && s'.owner.value.journal == s.owner.value.journal
      else s' == s && forall n :: k < n <= |steps| ==> i < |ys[n].threads| && ys[n].threads[i] == Finished(false)
  {
    hide Prepare; hide Wake;
    var id, step := ys[k].threads[i].id, steps[k];
    assert CanStep(ys[k], step) && ys[k + 1] == DoStep(ys[k], step);
    WakeEnds(ys[k].state, id, step.env);
    var (woken, v) := Wake(ys[k].state, id, step.env);
    if v.Again? {
      PrepareEnds(woken, step.env, step.delay);
    }
    if !Attached(ys[k].state, id) {
      forall n | k < n <= |steps| ensures i < |ys[n].threads| && ys[n].threads[i] == Finished(false) {
        FinishedStays(ys, steps, k + 1, n, i);
      }
    }
  }

  /** The journal is executed as a whole and in order on the physical transaction found when the
      lock was retaken. */
  predicate WholeReplay(s: State, s': State, id: nat) {
    && Attached(s, id) && Attached(s', id) && s.owner.value.txn.Some? && s'.owner.value.txn.Some?
    && s'.owner.value.journal == s.owner.value.journal && s'.rebuilt == s.rebuilt
    && s'.owner.value.txn.value.attempt == s.owner.value.txn.value.attempt
    && s'.owner.value.txn.value.applied == s.owner.value.txn.value.applied + s.owner.value.journal
  }

  lemma ReplayWhole(s: State, id: nat)
    requires Attached(s, id) && s.owner.value.txn.Some?
    ensures WholeReplay(s, s.(owner := Some(ReplayOn(s.owner.value, Complete))), id)
  {
    var o := s.owner.value;
    assert o.journal[..|o.journal|] == o.journal;
  }

  lemma ResumeRecovered(y: System, step: Step)
    requires CanStep(y, step) && step.Continue? && DoStep(y, step).threads[step.thread] == Finished(true)
    ensures WholeReplay(y.state, DoStep(y, step).state, y.threads[step.thread].id)
  {
    hide Prepare; hide Wake; hide WholeReplay;
    var id := y.threads[step.thread].id;
    WakeEnds(y.state, id, step.env);
    var (woken, v) := Wake(y.state, id, step.env);
    if v.Again? {
      PrepareEnds(woken, step.env, step.delay);
    } else {
      ReplayWhole(y.state, id);
    }
  }

  /** Call i was made at step c and succeeded in the stretch of step k. */
  ghost predicate SucceededAt(ys: seq<System>, steps: seq<Step>, c: nat, k: nat, i: nat)
    requires IsRun(ys, steps) && c < k < |steps|
  {
    && ComesBack(ys, steps, k, i) && CalledFor(ys, steps, c, i, ys[k].threads[i].id)
    && WholeReplay(ys[k].state, ys[k + 1].state, ys[k].threads[i].id)
  }

  /** A call waits only for the owner it was made for, and succeeds only by coming back. */
  ghost predicate Accounted(ys: seq<System>, steps: seq<Step>, n: nat, i: nat)
    requires IsRun(ys, steps) && n <= |steps| && i < |ys[n].threads|
  {
    match ys[n].threads[i]
    case Waiting(id) => exists c :: 0 <= c < n && CalledFor(ys, steps, c, i, id)
    case Finished(recovered) => recovered ==> exists c, k :: 0 <= c < k < n && SucceededAt(ys, steps, c, k, i)
  }

  lemma {:induction false} EveryCallAccounted(ys: seq<System>, steps: seq<Step>, n: nat, i: nat)
    requires IsRun(ys, steps) && n <= |steps| && i < |ys[n].threads|
    ensures Accounted(ys, steps, n, i)
  {
    hide DoStep; hide WholeReplay; hide Eligible;
    if n > 0 {
      var y, step := ys[n - 1], steps[n - 1];
      assert CanStep(y, step) && ys[n] == DoStep(y, step);
      if step.Call? && i == |y.threads| {
        CallStep(y, step);
        assert ys[n].threads[i].Waiting? ==> CalledFor(ys, steps, n - 1, i, ys[n].threads[i].id);
      } else if step.Call? {
        CallStep(y, step);
        EveryCallAccounted(ys, steps, n - 1, i);
      } else {
        ContinueLengths(y, step);
        ContinueThreads(y, step, i);
        EveryCallAccounted(ys, steps, n - 1, i);
        if ys[n].threads[i] == Finished(true) && y.threads[i].Waiting? {
          ResumeRecovered(y, step);
          var c :| 0 <= c < n - 1 && CalledFor(ys, steps, c, i, y.threads[i].id);
          assert SucceededAt(ys, steps, c, n - 1, i);
        }
      }
    }
  }

  lemma ContinueLengths(y: System, step: Step)
    requires CanStep(y, step) && !step.Call?
    ensures |DoStep(y, step).threads| == |y.threads|
  {
    hide Resume;
  }

  /** Success in any run: the call was made for an eligible owner before any output, and in the
      stretch in which it last came back the same owner was attached and its whole journal was
      executed, in order, on the physical transaction found there. */
  lemma SuccessIsReplayed(ys: seq<System>, steps: seq<Step>, i: nat)
    requires IsRun(ys, steps) && i < |ys[|steps|].threads| && ys[|steps|].threads[i] == Finished(true)
    ensures exists c, k :: 0 <= c < k < |steps| && SucceededAt(ys, steps, c, k, i)
  {
    hide SucceededAt; hide CalledFor;
    EveryCallAccounted(ys, steps, |steps|, i);
  }

  // ---- What the physical transaction holds after a success ----

  /** Other code may drop the owner's physical transaction, but neither installs one nor runs
      anything on it. */
  predicate LeavesPhysical(s: State, step: Step, id: nat) {
    step.Other? && Attached(s, id) && Attached(step.state, id) ==>
      step.state.owner.value.txn == s.owner.value.txn || step.state.owner.value.txn.None?
  }

  /** A call that comes back for owner `id` gets as far as the journal and executes some of it. */
  predicate Executes(y: System, step: Step, id: nat) {
    && step.Continue? && step.thread < |y.threads| && y.threads[step.thread] == Waiting(id)
    && Attached(y.state, id) && !step.env.waitFails && !Exhausted(y.state.owner.value, y.state.now)
    && y.state.owner.value.txn.Some? && y.state.owner.value.journal != []
    && (step.env.replay.Complete? || step.env.replay.after > 0)
  }

  predicate Rebuilds(y: System, step: Step, id: nat)
    requires CanStep(y, step)
  {
    DoStep(y, step).state.rebuilt == y.state.rebuilt + [id]
  }

  /** While owner `id` lasts, its physical transaction, if any, is attempt `a`, and `dirty` says
      whether anything was executed on it. */
  predicate Holds(s: State, id: nat, a: nat, dirty: bool) {
    && id < s.nextId
    && (Attached(s, id) && s.owner.value.txn.Some? ==>
          s.owner.value.txn.value.attempt == a && (s.owner.value.txn.value.applied != [] <==> dirty))
  }

  lemma PrepareHolds(s: State, env: Env, delay: int, id: nat, a: nat, dirty: bool)
    requires s.owner.Some? && Holds(s, id, a, dirty)
    ensures var (s', v) := Prepare(s, env, delay);
      (s'.rebuilt == s.rebuilt && Holds(s', id, a, dirty))
      || (s'.rebuilt == s.rebuilt + [s.owner.value.id] && s'.nextId == s.nextId
          && (s'.owner.Some? ==>
                s'.owner.value.id == s.owner.value.id
                && s'.owner.value.txn == Some(Physical(s'.owner.value.attempt, []))))
  {
  }

  lemma WakeHolds(y: System, step: Step, id: nat, a: nat, dirty: bool)
    requires step.Continue? && CanStep(y, step) && Holds(y.state, id, a, dirty)
    ensures var (s', v) := Wake(y.state, y.threads[step.thread].id, step.env);
      && s'.rebuilt == y.state.rebuilt && (v.Again? ==> s'.owner.Some?)
      && Holds(s', id, a, dirty || Executes(y, step, id))
  {
    var tid := y.threads[step.thread].id;
    if Attached(y.state, tid) && y.state.owner.value.txn.Some? {
      ReplaySome(y.state.owner.value, step.env.replay);
      ReplaySome(y.state.owner.value, Complete);
    }
    hide ReplayOn; hide Exhausted;
  }

  lemma ReplaySome(o: Owner, replay: Replay)
    requires o.txn.Some?
    ensures var o' := ReplayOn(o, replay);
      && o'.id == o.id && o'.readWrite == o.readWrite && o'.marker == o.marker && o'.recovering == o.recovering
      && o'.abortRetries == o.abortRetries && o'.txn.Some? && o'.txn.value.attempt == o.txn.value.attempt
      && (o'.txn.value.applied != [] <==>
            o.txn.value.applied != [] || (o.journal != [] && (replay.Complete? || replay.after > 0)))
  {
  }

  lemma CallHolds(y: System, step: Step, id: nat, a: nat, dirty: bool)
    requires step.Call? && Holds(y.state, id, a, dirty) && (Attached(y.state, id) ==> !Rebuilds(y, step, id))
    ensures Holds(DoStep(y, step).state, id, a, dirty)
  {
    hide Prepare;
    if Eligible(y.state, step.aborted) {
      PrepareHolds(y.state, step.env, step.delay, id, a, dirty);
    }
  }

  lemma ContinueHolds(y: System, step: Step, id: nat, a: nat, dirty: bool)
    requires step.Continue? && CanStep(y, step) && Holds(y.state, id, a, dirty)
    requires Attached(y.state, id) ==> !Rebuilds(y, step, id)
    ensures Holds(DoStep(y, step).state, id, a, dirty || Executes(y, step, id))
  {
    hide Prepare; hide Wake; hide Executes;
    WakeHolds(y, step, id, a, dirty);
    WakeEnds(y.state, y.threads[step.thread].id, step.env);
    var (woken, v) := Wake(y.state, y.threads[step.thread].id, step.env);
    if v.Again? {
      PrepareHolds(woken, step.env, step.delay, id, a, dirty || Executes(y, step, id));
    }
  }

  lemma StepHolds(y: System, step: Step, id: nat, a: nat, dirty: bool)
    requires CanStep(y, step) && Holds(y.state, id, a, dirty) && LeavesPhysical(y.state, step, id)
    requires Attached(y.state, id) ==> !Rebuilds(y, step, id)
    ensures Holds(DoStep(y, step).state, id, a, dirty || Executes(y, step, id))
  {
    match step
    case Call(_, _, _, _) => CallHolds(y, step, id, a, dirty);
    case Continue(_, _, _) => ContinueHolds(y, step, id, a, dirty);
    case Other(_) =>
  }

  /** Right after a reconstruction the attempt is the new one, with nothing on it. */
  lemma RebuiltHolds(y: System, step: Step, id: nat)
    requires CanStep(y, step) && Counted(y.state) && Rebuilds(y, step, id)
    ensures var s := DoStep(y, step).state;
      Holds(s, id, if s.owner.Some? then s.owner.value.attempt else 0, false)
  {
    hide Prepare; hide Wake;
    var grown := y.state.rebuilt + [id];
    assert |grown| == |y.state.rebuilt| + 1 && grown[|y.state.rebuilt|] == id;
    match step
    case Call(aborted, delivered, env, delay) =>
      if Eligible(y.state, aborted) {
        PrepareFresh(y.state, env, delay);
      }
    case Continue(i, env, delay) =>
      var (woken, v) := Wake(y.state, y.threads[i].id, env);
      WakeKeepsIds(y.state, y.threads[i].id, env);
      if v.Again? {
        PrepareFresh(woken, env, delay);
      }
    case Other(_) =>
  }

  lemma WakeKeepsIds(s: State, id: nat, env: Env)
    ensures var (s', v) := Wake(s, id, env);
      && s'.rebuilt == s.rebuilt && s'.nextId == s.nextId && (v.Again? ==> s'.owner.Some?)
      && (s'.owner.Some? ==> Attached(s, s'.owner.value.id))
  {
  }

  lemma PrepareFresh(s: State, env: Env, delay: int)
    requires s.owner.Some?
    ensures var (s', v) := Prepare(s, env, delay);
      && s'.nextId == s.nextId
      && (s'.rebuilt == s.rebuilt
          || (s'.rebuilt == s.rebuilt + [s.owner.value.id]
              && (s'.owner.Some? ==>
                    s'.owner.value.id == s.owner.value.id
                    && s'.owner.value.txn == Some(Physical(s'.owner.value.attempt, [])))))
  {
  }

  /** The stretch of step m reconstructs owner `id`. */
  predicate RebuiltIn(ys: seq<System>, m: nat, id: nat)
    requires m + 1 < |ys|
  {
    ys[m + 1].state.rebuilt == ys[m].state.rebuilt + [id]
  }

  /** Some stretch between steps r and n executes journal entries of owner `id`. */
  ghost predicate ExecutedIn(ys: seq<System>, steps: seq<Step>, r: nat, n: nat, id: nat)
    requires IsRun(ys, steps) && n <= |steps|
  {
    exists m :: r < m < n && Executes(ys[m], steps[m], id)
  }

  /** From step r on, until step n, owner `id` is not reconstructed and other code leaves its
      physical transaction alone. */
  ghost predicate Settled(ys: seq<System>, steps: seq<Step>, r: nat, n: nat, id: nat)
    requires IsRun(ys, steps) && n <= |steps|
  {
    forall m :: r < m < n ==>
      LeavesPhysical(ys[m].state, steps[m], id)
      && (Attached(ys[m].state, id) ==> !RebuiltIn(ys, m, id))
  }

  /** The attempt built at step r, if its owner lived on. */
  function BuiltAt(ys: seq<System>, r: nat): nat
    requires r + 1 < |ys|
  {
    if ys[r + 1].state.owner.Some? then ys[r + 1].state.owner.value.attempt else 0
  }

  lemma {:induction false} HoldsSince(ys: seq<System>, steps: seq<Step>, r: nat, n: nat, id: nat)
    requires IsRun(ys, steps) && r < n <= |steps| && Settled(ys, steps, r, n, id)
    requires RebuiltIn(ys, r, id)
    ensures Holds(ys[n].state, id, BuiltAt(ys, r), ExecutedIn(ys, steps, r, n, id))
  {
    hide DoStep; hide CanStep; hide Executes; hide Holds; hide LeavesPhysical; hide Counted;
    var m := n - 1;
    if r == m {
      AtMost49(ys, steps, r);
      RebuiltHolds(ys[r], steps[r], id);
      assert !ExecutedIn(ys, steps, r, n, id);
    } else {
      HoldsSince(ys, steps, r, m, id);
      assert CanStep(ys[m], steps[m]) && ys[n] == DoStep(ys[m], steps[m]);
      StepHolds(ys[m], steps[m], id, BuiltAt(ys, r), ExecutedIn(ys, steps, r, m, id));
      assert ExecutedIn(ys, steps, r, n, id) <==> ExecutedIn(ys, steps, r, m, id) || Executes(ys[m], steps[m], id);
    }
  }

  /** The last reconstruction of owner `id` before step k was in step r. */
  ghost predicate LatestRebuild(ys: seq<System>, steps: seq<Step>, r: nat, k: nat, id: nat)
    requires IsRun(ys, steps) && k <= |steps|
  {
    && r < k && RebuiltIn(ys, r, id)
    && forall m :: r < m < k ==> !RebuiltIn(ys, m, id)
  }

  /** Call i comes back in step k and recovers. */
  ghost predicate Succeeds(ys: seq<System>, steps: seq<Step>, k: nat, i: nat)
    requires IsRun(ys, steps) && k < |steps|
  {
    ComesBack(ys, steps, k, i) && i < |ys[k + 1].threads| && ys[k + 1].threads[i] == Finished(true)
  }

  lemma SuccessReplays(ys: seq<System>, steps: seq<Step>, k: nat, i: nat)
    requires IsRun(ys, steps) && k < |steps| && Succeeds(ys, steps, k, i)
    ensures WholeReplay(ys[k].state, ys[k + 1].state, ys[k].threads[i].id)
  {
    hide DoStep; hide WholeReplay;
    assert CanStep(ys[k], steps[k]) && ys[k + 1] == DoStep(ys[k], steps[k]);
    ResumeRecovered(ys[k], steps[k]);
  }

  /** If other code leaves the physical transaction alone after the owner's last reconstruction,
      then after a success the attempt built there holds exactly the journal, if and only if no call
      that came back since has executed any of it. */
  lemma JournalExactly(ys: seq<System>, steps: seq<Step>, r: nat, k: nat, i: nat)
    requires IsRun(ys, steps) && k < |steps| && Succeeds(ys, steps, k, i)
    requires LatestRebuild(ys, steps, r, k, ys[k].threads[i].id)
    requires forall m :: r < m < k ==> LeavesPhysical(ys[m].state, steps[m], ys[k].threads[i].id)
    ensures Attached(ys[k + 1].state, ys[k].threads[i].id)
    ensures ys[k + 1].state.owner.value.txn == Some(Physical(BuiltAt(ys, r), ys[k + 1].state.owner.value.journal))
      <==> !ExecutedIn(ys, steps, r, k, ys[k].threads[i].id)
  {
    var id := ys[k].threads[i].id;
    SuccessReplays(ys, steps, k, i);
    hide DoStep; hide CanStep; hide LeavesPhysical; hide ExecutedIn; hide IsRun;
    HoldsSince(ys, steps, r, k, id);
    var before, o := ys[k].state.owner.value.txn.value.applied, ys[k + 1].state.owner.value;
    assert o.txn.value.applied == before + o.journal;
    assert before + o.journal == o.journal ==> |before| == 0;
    assert before == [] ==> before + o.journal == o.journal;
  }

  /** The stretch in which call i began the wait it is in at step k. */
  ghost predicate BeganWait(ys: seq<System>, steps: seq<Step>, p: nat, k: nat, i: nat)
    requires IsRun(ys, steps) && p < k <= |steps|
  {
    && ((steps[p].Call? && |ys[p].threads| == i) || (steps[p].Continue? && steps[p].thread == i))
    && (forall m :: p < m <= k ==> WaitsAt(ys[m], i) && ys[m].threads[i] == ys[p + 1].threads[i])
    && forall m :: p < m < k ==> !(steps[m].Continue? && steps[m].thread == i)
  }

  predicate WaitsAt(y: System, i: nat) {
    i < |y.threads| && y.threads[i].Waiting?
  }

  /** A call begins each wait by reconstructing its owner. */
  lemma BeginsRebuilt(y: System, step: Step, i: nat)
    requires CanStep(y, step) && i < |DoStep(y, step).threads| && DoStep(y, step).threads[i].Waiting?
    requires (step.Call? && |y.threads| == i) || (step.Continue? && step.thread == i)
    ensures Rebuilds(y, step, DoStep(y, step).threads[i].id)
    ensures Attached(DoStep(y, step).state, DoStep(y, step).threads[i].id)
  {
    hide Prepare; hide Wake;
    match step
    case Call(aborted, delivered, env, delay) =>
      if Eligible(y.state, aborted) {
        PrepareFresh(y.state, env, delay);
        WaitIsRebuilt(y.state, env, delay);
      }
    case Continue(t, env, delay) =>
      WakeKeepsIds(y.state, y.threads[t].id, env);
      WakeEnds(y.state, y.threads[t].id, env);
      var (woken, v) := Wake(y.state, y.threads[t].id, env);
      if v.Again? {
        WaitIsRebuilt(woken, env, delay);
      }
    case Other(_) =>
  }

  lemma WaitIsRebuilt(s: State, env: Env, delay: int)
    requires s.owner.Some?
    ensures var (s', v) := Prepare(s, env, delay);
      v.Wait? ==> s'.rebuilt == s.rebuilt + [s.owner.value.id] && Attached(s', s.owner.value.id)
  {
  }

  lemma {:induction false} WaitBegan(ys: seq<System>, steps: seq<Step>, k: nat, i: nat) returns (p: nat)
    requires IsRun(ys, steps) && k <= |steps| && i < |ys[k].threads| && ys[k].threads[i].Waiting?
    ensures p < k && BeganWait(ys, steps, p, k, i)
    ensures RebuiltIn(ys, p, ys[k].threads[i].id)
  {
    hide DoStep; hide CanStep;
    var m := k - 1;
    var y, step := ys[m], steps[m];
    assert CanStep(y, step) && ys[k] == DoStep(y, step);
    if (step.Call? && |y.threads| == i) || (step.Continue? && step.thread == i) {
      BeginsRebuilt(y, step, i);
      p := m;
    } else {
      if step.Call? {
        CallStep(y, step);
        assert ys[k].threads[i] == ys[k].threads[..|y.threads|][i];
      } else {
        ContinueLengths(y, step);
        ContinueThreads(y, step, i);
      }
      p := WaitBegan(ys, steps, m, i);
    }
  }

  lemma {:induction false} LastRebuilt(ys: seq<System>, p: nat, k: nat, id: nat) returns (r: nat)
    requires p < k < |ys| && RebuiltIn(ys, p, id)
    ensures p <= r < k && RebuiltIn(ys, r, id) && forall m :: r < m < k ==> !RebuiltIn(ys, m, id)
  {
    hide RebuiltIn;
    r := k - 1;
    if !RebuiltIn(ys, r, id) {
      r := LastRebuilt(ys, p, k - 1, id);
    }
  }

  /** Every waiting call's owner has a last reconstruction, no earlier than that wait's beginning. */
  lemma LatestRebuildExists(ys: seq<System>, steps: seq<Step>, k: nat, i: nat) returns (r: nat)
    requires IsRun(ys, steps) && k <= |steps| && i < |ys[k].threads| && ys[k].threads[i].Waiting?
    ensures LatestRebuild(ys, steps, r, k, ys[k].threads[i].id)
  {
    hide DoStep; hide CanStep; hide BeganWait; hide RebuiltIn;
    var p := WaitBegan(ys, steps, k, i);
    r := LastRebuilt(ys, p, k, ys[k].threads[i].id);
  }

  /** A stretch that is no business of owner `id`: no recovery of it, and other code leaves its
      physical transaction alone. */
  predicate Quiet(y: System, step: Step, id: nat) {
    match step
    case Call(aborted, _, _, _) => !(Attached(y.state, id) && Eligible(y.state, aborted))
    case Continue(t, _, _) => t < |y.threads| ==> y.threads[t] != Waiting(id)
    case Other(_) => LeavesPhysical(y.state, step, id)
  }

  lemma QuietRebuildsNothing(y: System, step: Step, id: nat)
    requires CanStep(y, step) && Quiet(y, step, id) && Attached(y.state, id)
    ensures DoStep(y, step).state.rebuilt != y.state.rebuilt + [id]
  {
    hide Prepare;
    assert |y.state.rebuilt + [id]| > |y.state.rebuilt|;
  }

  /** If nobody else recovers the owner while a call waits, and other code leaves its physical
      transaction alone, then success leaves the attempt built before the wait holding exactly the
      journal. */
  lemma FreshAttemptHoldsJournal(ys: seq<System>, steps: seq<Step>, p: nat, k: nat, i: nat)
    requires IsRun(ys, steps) && p < k < |steps| && BeganWait(ys, steps, p, k, i) && Succeeds(ys, steps, k, i)
    requires forall m :: p < m < k ==> Quiet(ys[m], steps[m], ys[k].threads[i].id)
    ensures Attached(ys[k + 1].state, ys[k].threads[i].id)
    ensures ys[k + 1].state.owner.value.txn == Some(Physical(BuiltAt(ys, p), ys[k + 1].state.owner.value.journal))
  {
    var id := ys[k].threads[i].id;
    assert RebuiltIn(ys, p, id) by {
      assert CanStep(ys[p], steps[p]) && ys[p + 1] == DoStep(ys[p], steps[p]);
      BeginsRebuilt(ys[p], steps[p], i);
    }
    SuccessReplays(ys, steps, k, i);
    QuietSettled(ys, steps, p, k, id);
    hide DoStep; hide CanStep; hide Quiet; hide IsRun; hide BeganWait; hide ExecutedIn; hide Settled;
    HoldsSince(ys, steps, p, k, id);
    var o := ys[k + 1].state.owner.value;
    assert [] + o.journal == o.journal;
  }

  lemma QuietSettled(ys: seq<System>, steps: seq<Step>, p: nat, k: nat, id: nat)
    requires IsRun(ys, steps) && p < k <= |steps| && forall m :: p < m < k ==> Quiet(ys[m], steps[m], id)
    ensures Settled(ys, steps, p, k, id) && !ExecutedIn(ys, steps, p, k, id)
  {
    forall m | p < m < k
      ensures LeavesPhysical(ys[m].state, steps[m], id) && !Executes(ys[m], steps[m], id)
      ensures Attached(ys[m].state, id) ==> !RebuiltIn(ys, m, id)
    {
      assert Quiet(ys[m], steps[m], id) && CanStep(ys[m], steps[m]) && ys[m + 1] == DoStep(ys[m], steps[m]);
      hide DoStep;
      if Attached(ys[m].state, id) {
        QuietRebuildsNothing(ys[m], steps[m], id);
      }
    }
  }

  /** Statements run one after another: no call is made while another one waits. */
  ghost predicate Serialized(ys: seq<System>, steps: seq<Step>)
    requires IsRun(ys, steps)
  {
    forall m, t :: 0 <= m < |steps| && steps[m].Call? && 0 <= t < |ys[m].threads| ==> ys[m].threads[t].Finished?
  }

  lemma {:induction false} OneWaits(ys: seq<System>, steps: seq<Step>, n: nat, t: nat, u: nat)
    requires IsRun(ys, steps) && Serialized(ys, steps) && n <= |steps| && t < |ys[n].threads| && u < |ys[n].threads|
    requires ys[n].threads[t].Waiting? && ys[n].threads[u].Waiting?
    ensures t == u
  {
    hide DoStep;
    var p := WaitBegan(ys, steps, n, t);
    var q := WaitBegan(ys, steps, n, u);
    if p < q {
      assert ys[q].threads[t].Waiting? && CanStep(ys[q], steps[q]);
      OneWaits(ys, steps, q, t, u);
    } else if q < p {
      assert ys[p].threads[u].Waiting? && CanStep(ys[p], steps[p]);
      OneWaits(ys, steps, p, t, u);
    }
  }

  /** In a run whose statements are serialized, and in which no other code installs a physical
      transaction or runs anything on it while a recovery waits, every success leaves the last attempt
      holding exactly the journal. */
  lemma SerializedHoldsJournal(ys: seq<System>, steps: seq<Step>, k: nat, i: nat)
    returns (p: nat)
    requires IsRun(ys, steps) && Serialized(ys, steps) && k < |steps| && Succeeds(ys, steps, k, i)
    requires forall m, t :: 0 <= m < k && 0 <= t < |ys[m].threads| && ys[m].threads[t].Waiting? ==>
      LeavesPhysical(ys[m].state, steps[m], ys[m].threads[t].id)
    ensures p < k && BeganWait(ys, steps, p, k, i) && Attached(ys[k + 1].state, ys[k].threads[i].id)
    ensures ys[k + 1].state.owner.value.txn == Some(Physical(BuiltAt(ys, p), ys[k + 1].state.owner.value.journal))
  {
    hide DoStep; hide CanStep; hide LeavesPhysical;
    p := WaitBegan(ys, steps, k, i);
    forall m | p < m < k ensures Quiet(ys[m], steps[m], ys[k].threads[i].id) {
      assert ys[m].threads[i].Waiting? && ys[m].threads[i] == ys[k].threads[i];
      if steps[m].Continue? && steps[m].thread < |ys[m].threads| && ys[m].threads[steps[m].thread].Waiting? {
        OneWaits(ys, steps, m, i, steps[m].thread);
      }
    }
    FreshAttemptHoldsJournal(ys, steps, p, k, i);
  }

  /** In every run, a call made after output was delivered reconstructs nothing, and has failed for
      good: at no later point has it recovered. */
  lemma DeliveredEndsRetry(ys: seq<System>, steps: seq<Step>, c: nat, n: nat)
    requires IsRun(ys, steps) && c < n <= |steps| && steps[c].Call? && steps[c].delivered
    ensures ys[c + 1].state.rebuilt == ys[c].state.rebuilt
    ensures var i := |ys[c].threads|; i < |ys[n].threads| && ys[n].threads[i] == Finished(false)
  {
    hide DoStep; hide CanStep;
    assert ys[c + 1] == DoStep(ys[c], steps[c]);
    CallStep(ys[c], steps[c]);
    FinishedStays(ys, steps, c + 1, n, |ys[c].threads|);
  }

  // ---- When a call goes round, stops or succeeds ----

  /** No deadline of the owner has come at `time`, and nothing retires it at the next barrier. */
  predicate InTime(o: Owner, time: int) {
    !o.expirePending && (o.deadline.None? || o.deadline.value > time)
  }

  /** From the top of the loop the call gets as far as the next wait: it is not cancelled, the
      constructor succeeds, and no deadline comes before or while it runs. */
  predicate GoesRound(s: State, env: Env)
    requires s.owner.Some?
  {
    && !env.canceled && env.constructs && s.owner.value.readWrite && InTime(s.owner.value, s.now + env.takes)
    && (env.callerDeadline.None? || env.callerDeadline.value > s.now + env.takes)
  }

  /** The physical transaction is a new attempt, one later, with nothing executed on it; the journal stays. */
  predicate NextAttempt(o: Owner, o': Owner) {
    o'.attempt == o.attempt + 1 && o'.txn == Some(Physical(o.attempt + 1, [])) && o'.journal == o.journal
  }

  lemma PrepareExactly(s: State, env: Env, delay: int)
    requires s.owner.Some?
    ensures var (s', v) := Prepare(s, env, delay);
      && (v.Wait? <==> GoesRound(s, env)) && !v.Recovered? && !v.Again?
      && (v.Wait? ==> s'.rebuilt == s.rebuilt + [s.owner.value.id] && Attached(s', s.owner.value.id)
                      && NextAttempt(s.owner.value, s'.owner.value))
      && (!v.Wait? && s.owner.value.readWrite ==> s'.owner.None?)
  {
  }

  /** The wait that a round begins with ends, from the time the constructor has taken on, by both deadlines,
      and is the asked delay whenever that fits. */
  lemma RoundWaitsInTime(s: State, env: Env, delay: int)
    requires s.owner.Some?
    ensures var (s', v) := Prepare(s, env, delay);
      v.Wait? ==>
        && 0 <= v.delay && s'.now == s.now + env.takes
        && (env.callerDeadline.Some? ==> s'.now + v.delay <= env.callerDeadline.value)
        && (s.owner.value.deadline.Some? ==> s'.now + v.delay <= s.owner.value.deadline.value)
        && (v.delay != delay ==>
              || (delay < 0 && v.delay == 0)
              || (v.delay < delay && (Some(s'.now + v.delay) == env.callerDeadline
                                      || Some(s'.now + v.delay) == s.owner.value.deadline)))
  {
  }

  /** The call finds its own owner attached, in time, with a physical transaction. */
  predicate FindsOwner(s: State, id: nat, env: Env) {
    Attached(s, id) && InTime(s.owner.value, s.now) && s.owner.value.txn.Some? && !env.waitFails
  }

  /** After a failure that does not reconstruct: an owner with a savepoint marker is kept for recovery
      without its transaction; one without a transaction stays as it is; any other is gone. */
  predicate LeftBehind(s: State, s': State)
    requires s.owner.Some?
  {
    var o := s.owner.value;
    if o.marker && !o.recovering then
      Attached(s', o.id) && s'.owner.value.recovering && s'.owner.value.txn.None? && s'.owner.value.journal == o.journal
    else if o.txn.None? && !o.recovering then s' == s
    else s'.owner.None?
  }

  lemma WakeExactly(s: State, id: nat, env: Env)
    ensures var (s', v) := Wake(s, id, env);
      if !FindsOwner(s, id, env) then v.Failed? && (Attached(s, id) ==> s'.owner.None?)
      else if s.owner.value.journal == [] || env.replay.Complete? then
        if env.canceledLate then v.Failed? && s'.owner.None? else v.Recovered?
      else if !env.replay.aborted then v.Failed? && s'.owner.None?
      else if s.owner.value.abortRetries >= 49 then
        v.Failed? && s'.rebuilt == s.rebuilt && (s.owner.value.readWrite ==> LeftBehind(s, s'))
      else
        && v.Again? && Attached(s', id) && s'.now == s.now && s'.rebuilt == s.rebuilt
        && s'.owner.value.attempt == s.owner.value.attempt && s'.owner.value.journal == s.owner.value.journal
        && s'.owner.value.readWrite == s.owner.value.readWrite
        && s'.owner.value.expirePending == s.owner.value.expirePending
        && s'.owner.value.deadline == s.owner.value.deadline
  {
  }

  /** What comes of a call that comes back in step k, in terms of what the step finds and what the
      outside does: it recovers after a complete replay; it goes round after a repeated abort if budget,
      deadlines and constructor allow; in every other case it fails, and every failure but a used-up
      budget leaves no owner. */
  lemma ContinueExactly(ys: seq<System>, steps: seq<Step>, k: nat, i: nat)
    requires IsRun(ys, steps) && k < |steps| && ComesBack(ys, steps, k, i)
    ensures var s, s', id, env := ys[k].state, ys[k + 1].state, ys[k].threads[i].id, steps[k].env;
      var after := ys[k + 1].threads[i];
      if !FindsOwner(s, id, env) then
        after == Finished(false) && (Attached(s, id) ==> s'.owner.None?)
      else if s.owner.value.journal == [] || env.replay.Complete? then
        if env.canceledLate then after == Finished(false) && s'.owner.None? else after == Finished(true)
      else if !env.replay.aborted then
        after == Finished(false) && s'.owner.None?
      else if Count(s.rebuilt, id) >= 49 then
        after == Finished(false) && s'.rebuilt == s.rebuilt && (s.owner.value.readWrite ==> LeftBehind(s, s'))
      else if GoesRound(s, env) then
        after == Waiting(id) && s'.rebuilt == s.rebuilt + [id] && Attached(s', id)
        && NextAttempt(s.owner.value, s'.owner.value)
      else
        after == Finished(false) && (s.owner.value.readWrite ==> s'.owner.None?)
  {
    var s, id, step := ys[k].state, ys[k].threads[i].id, steps[k];
    assert CanStep(ys[k], step) && ys[k + 1] == DoStep(ys[k], step);
    AtMost49(ys, steps, k);
    WakeExactly(s, id, step.env);
    hide Prepare; hide Wake; hide IsRun; hide Counted; hide InTime; hide FindsOwner;
    var (woken, v) := Wake(s, id, step.env);
    if v.Again? {
      SameRound(s, woken, step.env);
      PrepareExactly(woken, step.env, step.delay);
    }
  }

  lemma SameRound(s: State, s': State, env: Env)
    requires s.owner.Some? && s'.owner.Some? && s'.now == s.now
    requires s'.owner.value.readWrite == s.owner.value.readWrite
    requires s'.owner.value.expirePending == s.owner.value.expirePending
    requires s'.owner.value.deadline == s.owner.value.deadline
    ensures GoesRound(s', env) <==> GoesRound(s, env)
  {
  }

  /** What comes of a call: without a read-write owner that retries and an abort it changes nothing; with
      delivered output or a used-up budget it fails and reconstructs nothing, and what is left is the
      owner without its transaction if it has a savepoint, else none; otherwise it waits, unless a
      deadline, a cancellation or the constructor stops it, and then no owner is left. */
  lemma CallExactly(ys: seq<System>, steps: seq<Step>, k: nat)
    requires IsRun(ys, steps) && k < |steps| && steps[k].Call?
    ensures |ys[k + 1].threads| == |ys[k].threads| + 1
    ensures var s, s', step := ys[k].state, ys[k + 1].state, steps[k];
      var after := ys[k + 1].threads[|ys[k].threads|];
      if s.owner.None? || !s.owner.value.retryAborts || !s.owner.value.readWrite || !step.aborted then
        after == Finished(false) && s' == s
      else if step.delivered || Count(s.rebuilt, s.owner.value.id) >= 49 then
        after == Finished(false) && s'.rebuilt == s.rebuilt && LeftBehind(s, s')
      else if GoesRound(s, step.env) then
        after == Waiting(s.owner.value.id) && s'.rebuilt == s.rebuilt + [s.owner.value.id]
        && Attached(s', s.owner.value.id) && NextAttempt(s.owner.value, s'.owner.value)
      else
        after == Finished(false) && s'.owner.None?
  {
    var s, step := ys[k].state, steps[k];
    assert CanStep(ys[k], step) && ys[k + 1] == DoStep(ys[k], step);
    AtMost49(ys, steps, k);
    hide Prepare; hide IsRun; hide Counted; hide GoesRound;
    if s.owner.Some? {
      PrepareExactly(s, step.env, step.delay);
    }
  }

  // ---- The checks after the wait do not look at the attempt ----

  const CALM := Env(false, None, true, 0, false, Complete, false)

  function JournaledOwner(retries: nat, attempt: nat, applied: seq<nat>): State {
    var txn := Some(Physical(attempt, applied));
    State(Some(Owner(0, true, true, retries, attempt, txn, [7], false, false, false, None)), 0, 1, seq(retries, _ => 0))
  }

  /** A recovery that finds no owner exhausted, nobody interfering and no error. */
  lemma CallAgain(retries: nat, attempt: nat, applied: seq<nat>, threads: seq<Thread>)
    requires retries < 2
    ensures DoStep(System(JournaledOwner(retries, attempt, applied), threads), Call(true, false, CALM, 0))
         == System(JournaledOwner(retries + 1, attempt + 1, []), threads + [Waiting(0)])
  {
    assert JournaledOwner(retries, attempt, applied).rebuilt + [0]
        == JournaledOwner(retries + 1, attempt + 1, []).rebuilt;
  }

  lemma ReplayAgain(retries: nat, attempt: nat, applied: seq<nat>, threads: seq<Thread>, i: nat)
    requires i < |threads| && threads[i] == Waiting(0)
    ensures DoStep(System(JournaledOwner(retries, attempt, applied), threads), Continue(i, CALM, 0))
         == System(JournaledOwner(retries, attempt, applied + [7]), threads[i := Finished(true)])
  {
    hide Prepare;
    assert [7][..1] == [7];
  }

  /** A run goes on with any enabled step. */
  lemma Extend(ys: seq<System>, steps: seq<Step>, step: Step) returns (more: seq<System>, all: seq<Step>)
    requires IsRun(ys, steps) && CanStep(ys[|steps|], step)
    ensures IsRun(more, all) && |more| == |all| + 1 && all == steps + [step] && more[|all|] == DoStep(ys[|steps|], step)
    ensures |ys| == |steps| + 1 && more[..|ys|] == ys
  {
    hide CanStep; hide DoStep;
    more, all := ys + [DoStep(ys[|steps|], step)], steps + [step];
    forall k | 0 <= k < |all| ensures CanStep(more[k], all[k]) && more[k + 1] == DoStep(more[k], all[k]) {
      if k < |steps| {
        assert CanStep(ys[k], steps[k]) && ys[k + 1] == DoStep(ys[k], steps[k]);
      }
    }
  }

  lemma CalledTwice() returns (ys: seq<System>, steps: seq<Step>)
    ensures IsRun(ys, steps) && |ys| == |steps| + 1
    ensures steps == [Other(JournaledOwner(0, 1, [7])), Call(true, false, CALM, 0), Call(true, false, CALM, 0)]
    ensures ys[|steps|] == System(JournaledOwner(2, 3, []), [Waiting(0), Waiting(0)])
    ensures ys[2].threads == [Waiting(0)]
  {
    ys, steps := [System(State(None, 0, 0, []), [])], [];
    ys, steps := Extend(ys, steps, Other(JournaledOwner(0, 1, [7])));
    assert ys[|steps|] == System(JournaledOwner(0, 1, [7]), []);
    hide DoStep; hide JournaledOwner; hide OtherCode; hide IsRun;
    CallAgain(0, 1, [7], []);
    ys, steps := Extend(ys, steps, Call(true, false, CALM, 0));
    assert ys[|steps|] == System(JournaledOwner(1, 2, []), [Waiting(0)]);
    CallAgain(1, 2, [], [Waiting(0)]);
    var called := ys[2];
    ys, steps := Extend(ys, steps, Call(true, false, CALM, 0));
    assert ys[2] == ys[..3][2] == called;
  }

  /** Two recoveries of one owner, interleaved: the second call is made and reconstructs while the
      first waits, and both then replay the journal on the second attempt. Both succeed; the journal
      ran twice. Serialized statements exclude this run. */
  lemma JournalReplayedTwice() returns (ys: seq<System>, steps: seq<Step>)
    ensures IsRun(ys, steps)
    ensures steps == [Other(JournaledOwner(0, 1, [7])), Call(true, false, CALM, 0), Call(true, false, CALM, 0),
                      Continue(0, CALM, 0), Continue(1, CALM, 0)]
    ensures ys[|steps|] == System(JournaledOwner(2, 3, [7, 7]), [Finished(true), Finished(true)])
    ensures ys[2].threads == [Waiting(0)] && !Serialized(ys, steps)
  {
    hide DoStep; hide JournaledOwner; hide OtherCode; hide IsRun;
    ys, steps := CalledTwice();
    var called := ys[2];
    ReplayAgain(2, 3, [], [Waiting(0), Waiting(0)], 0);
    ys, steps := Extend(ys, steps, Continue(0, CALM, 0));
    assert ys[2] == ys[..4][2] == called;
    assert [Waiting(0), Waiting(0)][0 := Finished(true)] == [Finished(true), Waiting(0)];
    assert [] + [7] == [7];
    assert ys[|steps|] == System(JournaledOwner(2, 3, [7]), [Finished(true), Waiting(0)]);
    ReplayAgain(2, 3, [7], [Finished(true), Waiting(0)], 1);
    ys, steps := Extend(ys, steps, Continue(1, CALM, 0));
    assert ys[2] == ys[..5][2] == called;
    assert steps[2].Call? && ys[2].threads[0].Waiting?;
    assert [Finished(true), Waiting(0)][1 := Finished(true)] == [Finished(true), Finished(true)];
    assert [7] + [7] == [7, 7];
  }

  // ---- The budget can be used up ----

  const ABORTING := Env(false, None, true, 0, false, Stopped(0, true), false)

  lemma AbortAgain(retries: nat, attempt: nat)
    requires 0 < retries < 49
    ensures DoStep(System(JournaledOwner(retries, attempt, []), [Waiting(0)]), Continue(0, ABORTING, 0))
         == System(JournaledOwner(retries + 1, attempt + 1, []), [Waiting(0)])
  {
    assert JournaledOwner(retries, attempt, []).rebuilt + [0] == JournaledOwner(retries + 1, attempt + 1, []).rebuilt;
    assert [] + [7][..0] == [];
    assert [Waiting(0)][0 := Waiting(0)] == [Waiting(0)];
  }

  /** A run of one call whose replay is aborted again and again reaches any number up to 49. */
  lemma {:induction false} AbortedOften(n: nat) returns (ys: seq<System>, steps: seq<Step>)
    requires 0 < n <= 49
    ensures IsRun(ys, steps) && |ys| == |steps| + 1 && |steps| == n + 1
    ensures steps[1] == Call(true, false, CALM, 0)
    ensures forall m :: 2 <= m < |steps| ==> steps[m] == Continue(0, ABORTING, 0)
    ensures ys[|steps|] == System(JournaledOwner(n, n + 1, []), [Waiting(0)])
  {
    if n == 1 {
      ys, steps := [System(State(None, 0, 0, []), [])], [];
      ys, steps := Extend(ys, steps, Other(JournaledOwner(0, 1, [7])));
      assert ys[|steps|] == System(JournaledOwner(0, 1, [7]), []);
      hide DoStep; hide JournaledOwner; hide OtherCode; hide IsRun;
      CallAgain(0, 1, [7], []);
      ys, steps := Extend(ys, steps, Call(true, false, CALM, 0));
    } else {
      ys, steps := AbortedOften(n - 1);
      hide DoStep; hide JournaledOwner; hide IsRun;
      AbortAgain(n - 1, n);
      ys, steps := Extend(ys, steps, Continue(0, ABORTING, 0));
    }
  }

  /** The bound of 49 reconstructions is reached, and the next abort ends the call. */
  lemma ReachesFortyNine() returns (ys: seq<System>, steps: seq<Step>)
    ensures IsRun(ys, steps) && |ys| == |steps| + 1 && |steps| == 51
    ensures Count(ys[50].state.rebuilt, 0) == 49 && ys[50].threads == [Waiting(0)]
    ensures steps[50] == Continue(0, ABORTING, 0) && ys[51].threads == [Finished(false)]
  {
    ys, steps := AbortedOften(49);
    var before := ys[50];
    AtMost49(ys, steps, 50);
    assert Count(before.state.rebuilt, 0) == 49;
    ys, steps := Extend(ys, steps, Continue(0, ABORTING, 0));
    assert ys[50] == ys[..51][50] == before;
    ContinueExactly(ys, steps, 50, 0);
    ContinueLengths(before, steps[50]);
    hide DoStep; hide IsRun; hide Count;
    assert |ys[51].threads| == 1 && ys[51].threads[0] == Finished(false);
  }
}
