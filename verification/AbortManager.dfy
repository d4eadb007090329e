/** recoverExplicitAbortLocked as the loop it is (internal/mycli/explicit_abort_retry.go:143-276,
    internal/mycli/retry_aborts.go:84-140 and 246-267): it updates the manager and its owner,
    gives up the lock to wait, and takes nothing for granted afterwards. */
module AbortManager {
  import opened TableIds
  import opened AbortRetry

  class TransactionContext {
    const id: nat
    var readWrite: bool
    var retryAborts: bool
    var abortRetries: nat
    var attempt: nat
    var txn: Option<Physical>
    var journal: seq<nat>
    var marker: bool
    var recovering: bool
    var expirePending: bool
    var deadline: Option<int>

    constructor (id: nat, readWrite: bool, retryAborts: bool)
      ensures View() == Owner(id, readWrite, retryAborts, 0, 0, None, [], false, false, false, None)
    {
      this.id, this.readWrite, this.retryAborts := id, readWrite, retryAborts;
      abortRetries, attempt, txn, journal, marker, recovering, expirePending, deadline := 0, 0, None, [], false,
        false, false, None;
    }

    function View(): Owner
      reads this
    {
      Owner(id, readWrite, retryAborts, abortRetries, attempt, txn, journal, marker, recovering, expirePending,
        deadline)
    }
  }

  /** An owner on whose physical transaction the first n journal entries have been replayed. */
  ghost function Partly(o: Owner, n: nat): Owner
    requires o.txn.Some? && n <= |o.journal|
  {
    o.(txn := Some(o.txn.value.(applied := o.txn.value.applied + o.journal[..n])))
  }

  lemma PartlyNone(o: Owner)
    requires o.txn.Some?
    ensures Partly(o, 0) == o
  {
    assert o.txn.value.applied + o.journal[..0] == o.txn.value.applied;
  }

  lemma PartlyNext(o: Owner, n: nat)
    requires o.txn.Some? && n < |o.journal|
    ensures Partly(o, n + 1).txn.value.applied == Partly(o, n).txn.value.applied + [o.journal[n]]
  {
    assert o.journal[..n + 1] == o.journal[..n] + [o.journal[n]];
  }

  lemma PartlyAll(o: Owner)
    requires o.txn.Some?
    ensures Partly(o, |o.journal|) == ReplayOn(o, Complete)
  {
  }

  class TransactionManager {
    var tc: TransactionContext?
    var clock: int
    var nextId: nat
    var rebuilt: seq<nat>

    function View(): State
      reads this, tc
    {
      State(if tc == null then None else Some(tc.View()), clock, nextId, rebuilt)
    }

    function Owned(): set<object>
      reads this
    {
      if tc == null then {} else {tc}
    }

    method Retire()
      modifies this`tc
      ensures tc == null && View() == AbortRetry.Retire(old(View()))
    {
      tc := null;
    }

    method HandleOwnerFailure()
      requires tc != null
      modifies this`tc, tc
      ensures View() == HandleFailure(old(View())) && (tc == old(tc) || tc == null)
    {
      if tc.marker && !tc.recovering {
        tc.txn := None;
        tc.recovering := true;
        return;
      }
      if !tc.readWrite {
        return;
      }
      if tc.txn.None? {
        if tc.recovering {
          Retire();
        }
        return;
      }
      Retire();
    }

    method OwnerDeadlineExhausted() returns (exhausted: bool)
      ensures exhausted <==> tc != null && Exhausted(tc.View(), clock)
    {
      if tc == null {
        return false;
      }
      if tc.expirePending {
        return true;
      }
      return tc.deadline.Some? && tc.deadline.value <= clock;
    }

    /** None when neither the caller nor the owner has a deadline. */
    method AbortWaitBudget(caller: Option<int>) returns (remaining: Option<int>)
      ensures remaining == WaitBudget(View(), caller)
    {
      var exhausted := OwnerDeadlineExhausted();
      if exhausted {
        return Some(0);
      }
      var deadline := caller;
      if tc != null && tc.deadline.Some? {
        if deadline.None? || tc.deadline.value < deadline.value {
          deadline := tc.deadline;
        }
      }
      if deadline.None? {
        return None;
      }
      var left := deadline.value - clock;
      return Some(if left < 0 then 0 else left);
    }

    method ReconstructExplicitPhysical(env: Env) returns (ok: bool)
      requires tc != null
      modifies this`tc, this`clock, tc`txn, tc`attempt
      ensures (View(), ok) == Reconstruct(old(View()), env)
      ensures tc == old(tc) || (tc == null && !ok)
    {
      if !tc.readWrite {
        return false;
      }
      tc.txn := None;
      clock := clock + env.takes;
      if !env.constructs {
        Retire();
        return false;
      }
      tc.attempt := tc.attempt + 1;
      tc.txn := Some(Physical(tc.attempt, []));
      return true;
    }

    /** Replays entry by entry; stops at the first error. */
    method ReplayJournal(replay: Replay) returns (ok: bool)
      requires tc != null && tc.txn.Some?
      modifies tc`txn
      ensures ok <==> tc.journal == [] || replay.Complete?
      ensures View() == old(View()).(owner := Some(ReplayOn(old(tc.View()), if ok then Complete else replay)))
    {
      var i := 0;
      ghost var owner := tc.View();
      PartlyNone(owner);
      while i < |tc.journal|
        invariant 0 <= i <= |tc.journal|
        invariant tc.View() == Partly(owner, i)
        invariant replay.Complete? || i <= replay.after
      {
        if replay.Stopped? && i == replay.after {
          return false;
        }
        tc.txn := Some(tc.txn.value.(applied := tc.txn.value.applied + [tc.journal[i]]));
        PartlyNext(owner, i);
        i := i + 1;
      }
      PartlyAll(owner);
      return |tc.journal| == 0 || replay.Complete?;
    }

    /** The stretch from the top of the loop to the wait. */
    method PrepareAttempt(env: Env, delay: int) returns (verdict: Verdict)
      requires tc != null
      modifies this, tc
      ensures (View(), verdict) == Prepare(old(View()), env, delay)
      ensures tc == old(tc) || tc == null
    {
      if env.canceled {
        Retire();
        return Failed;
      }
      var exhausted := OwnerDeadlineExhausted();
      if exhausted {
        Retire();
        return Failed;
      }
      var remaining := AbortWaitBudget(env.callerDeadline);
      if remaining.Some? && remaining.value <= 0 {
        Retire();
        return Failed;
      }
      var ok := ReconstructExplicitPhysical(env);
      if !ok {
        return Failed;
      }
      tc.abortRetries := tc.abortRetries + 1;
      rebuilt := rebuilt + [tc.id];
      remaining := AbortWaitBudget(env.callerDeadline);
      if remaining.Some? && remaining.value <= 0 {
        Retire();
        return Failed;
      }
      return Wait(ClampDelay(delay, remaining));
    }

    /** The stretch after the wait, for the owner this call began with. */
    method WakeUp(owner: TransactionContext, env: Env) returns (verdict: Verdict)
      requires tc != null && tc.id == owner.id ==> tc == owner
      modifies this`tc, owner
      ensures (View(), verdict) == Wake(old(View()), owner.id, env)
      ensures tc == old(tc) || tc == null
    {
      if env.waitFails {
        if tc == owner {
          Retire();
        }
        return Failed;
      }
      if tc != owner {
        return Failed;
      }
      var exhausted := OwnerDeadlineExhausted();
      if exhausted {
        Retire();
        return Failed;
      }
      if owner.txn.None? {
        Retire();
        return Failed;
      }
      var ok := ReplayJournal(env.replay);
      if ok {
        if env.canceledLate {
          Retire();
          return Failed;
        }
        return Recovered;
      }
      if env.replay.aborted {
        if owner.abortRetries >= MAX_RECONSTRUCTIONS {
          HandleOwnerFailure();
          return Failed;
        }
        return Again;
      }
      Retire();
      return Failed;
    }

    /** While the lock is free: one change by other code. */
    method OtherCode()
      requires Counted(View())
      modifies this, Owned()
      ensures Counted(View()) && old(nextId) <= nextId && old(clock) <= clock
      ensures tc == old(tc) || tc == null || (fresh(tc) && tc.id >= old(nextId))
      ensures tc != null && tc == old(tc) ==> tc.abortRetries >= old(tc.abortRetries)
    {
      hide Count;
      if {
        case tc != null =>
          tc.readWrite, tc.attempt, tc.txn, tc.journal := *, *, *, *;
          tc.marker, tc.recovering, tc.expirePending, tc.deadline := *, *, *, *;
        case true =>
          Retire();
        case tc == null =>
          var readWrite: bool, retryAborts: bool := *, *;
          tc := new TransactionContext(nextId, readWrite, retryAborts);
          nextId := nextId + 1;
        case true =>
          var now: int := *;
          clock := if now > clock then now else clock;
      }
    }

    /** While the lock is free: any number of recoveries of other calls and of changes by other
        code, in any order. */
    method Unlocked()
      requires Counted(View())
      modifies this, Owned()
      ensures Counted(View()) && old(nextId) <= nextId && old(clock) <= clock
      ensures tc == old(tc) || tc == null || (fresh(tc) && tc.id >= old(nextId))
      ensures tc != null && tc == old(tc) ==> tc.abortRetries >= old(tc.abortRetries)
    {
      hide Prepare;
      hide Wake;
      hide Count;
      var rounds: int := *;
      var start := nextId;
      while rounds > 0
        invariant Counted(View()) && start <= nextId && old(clock) <= clock
        invariant tc == old(tc) || tc == null || (fresh(tc) && tc.id >= start)
        invariant tc != null && tc == old(tc) ==> tc.abortRetries >= old(tc.abortRetries)
      {
        if {
          case tc != null && tc.abortRetries < MAX_RECONSTRUCTIONS =>
            var env: Env := *;
            var delay: int := *;
            PrepareCounts(View(), env, delay);
            var _ := PrepareAttempt(env, delay);
          case tc != null =>
            var env: Env := *;
            WakeCounts(View(), tc.id, env);
            var _ := WakeUp(tc, env);
          case true =>
            OtherCode();
        }
        rounds := rounds - 1;
      }
    }

    /** `woke` is the state when the lock was last taken. The result is success only with the
        same owner attached and its whole journal replayed since then; another owner is left
        exactly as found; the 49 reconstructions hold for every owner throughout. */
    method RecoverExplicitAbort(aborted: bool, delivered: bool) returns (recovered: bool, woke: State)
      requires Counted(View())
      modifies this, Owned()
      ensures Counted(View())
      ensures recovered ==>
        && Eligible(old(View()), aborted) && !delivered && tc == old(tc) && tc != null
        && tc.abortRetries > old(tc.abortRetries) && tc.txn.Some?
        && Attached(woke, tc.id) && woke.owner.value.txn.Some? && tc.journal == woke.owner.value.journal
        && tc.txn.value.applied == woke.owner.value.txn.value.applied + tc.journal
      ensures !recovered ==> tc == null || tc == old(tc) || View() == woke
      ensures woke.owner.Some? && tc == null ==> old(tc) != null && Attached(woke, old(tc).id)
      ensures !Eligible(old(View()), aborted) ==> View() == old(View())
      ensures delivered || (old(tc) != null && old(tc.abortRetries) >= MAX_RECONSTRUCTIONS) ==>
        !recovered && rebuilt == old(rebuilt)
    {
      hide Prepare;
      hide Count;
      woke := View();
      if tc == null || !tc.retryAborts || !tc.readWrite || !aborted {
        return false, woke;
      }
      var owner := tc;
      if delivered || owner.abortRetries >= MAX_RECONSTRUCTIONS {
        HandleOwnerFailure();
        return false, woke;
      }
      while true
        invariant tc == owner == old(tc) && Counted(View()) && Attached(woke, owner.id)
        invariant old(owner.abortRetries) <= owner.abortRetries < MAX_RECONSTRUCTIONS
        decreases MAX_RECONSTRUCTIONS - owner.abortRetries
      {
        var env: Env := *;
        var delay: int := *;
        PrepareCounts(View(), env, delay);
        var verdict := PrepareAttempt(env, delay);
        if verdict.Failed? {
          return false, woke;
        }
        Unlocked();
        woke := View();
        env := *;
        WakeCounts(View(), owner.id, env);
        verdict := WakeUp(owner, env);
        if verdict.Again? {
          continue;
        }
        return verdict.Recovered?, woke;
      }
    }
  }
}
