/** The idle-expiry methods of the transaction manager as they update the manager and its owner
    (internal/mycli/idle_transaction.go:48-282; statement frames, install and retirement from
    transaction_manager.go). Each is proved against the value-level operation of IdleOwner. */
module IdleManager {
  import opened TableIds
  import opened IdleOwner

  /** The idle part of a logical owner. Identity is the id: a timer of another owner carries
      another id. */
  class TransactionContext {
    const id: nat
    var idle: int
    var userWork: bool
    var needsRearm: bool
    var elapsedHeld: bool
    var gen: nat
    var lastUser: int
    var armed: Option<Timer>
    var expirePending: bool
    var idleExpired: bool

    constructor (id: nat, idle: int)
      ensures View() == Owner(id, idle, false, false, false, 0, 0, None, false, false)
    {
      this.id, this.idle := id, idle;
      userWork, needsRearm, elapsedHeld, gen, lastUser, armed := false, false, false, 0, 0, None;
      expirePending, idleExpired := false, false;
    }

    function View(): Owner
      reads this
    {
      Owner(id, idle, userWork, needsRearm, elapsedHeld, gen, lastUser, armed, expirePending, idleExpired)
    }
  }

  class TransactionManager {
    var tc: TransactionContext?
    var statementDepth: int
    var idleCliHold: int
    var clock: int
    var timers: set<Timer>
    var idleNotice: bool
    var rolledBack: seq<nat>
    var nextId: nat

    predicate Valid()
      reads this
    {
      statementDepth >= 0 && idleCliHold >= 0
    }

    function View(): State
      requires Valid()
      reads this, tc
    {
      State(if tc == null then None else Some(tc.View()), statementDepth, idleCliHold, clock, timers, idleNotice,
        rolledBack, nextId)
    }

    function Owned(): set<object>
      reads this
    {
      if tc == null then {} else {tc}
    }

    constructor ()
      ensures Valid() && View() == INIT
    {
      tc, statementDepth, idleCliHold, clock := null, 0, 0, 0;
      timers, idleNotice, rolledBack, nextId := {}, false, [], 0;
    }

    method Install(idle: int)
      requires Valid() && tc == null
      modifies this
      ensures Valid() && fresh(tc) && View() == InstallOwner(old(View()), idle)
    {
      tc := new TransactionContext(nextId, idle);
      nextId := nextId + 1;
    }

    method CancelIdleTimer()
      requires Valid() && tc != null
      modifies this`timers, tc`armed
      ensures Valid() && View() == Cancel(old(View()))
    {
      if tc.armed.None? {
        return;
      }
      var t := tc.armed.value;
      if clock < t.deadline {
        timers := timers - {t};
      }
      tc.armed := None;
    }

    method RetireTransactionContext()
      requires Valid()
      modifies this, Owned()
      ensures Valid() && tc == null && View() == RetireOwner(old(View()))
      ensures old(tc) != null ==> old(tc).idleExpired == old(tc.idleExpired)
    {
      if tc == null {
        return;
      }
      CancelIdleTimer();
      tc := null;
    }

    method RollbackAndRetireIdle()
      requires Valid() && tc != null
      modifies this, Owned()
      ensures Valid() && tc == null && View() == RollBack(old(View()))
      ensures old(tc).idleExpired
    {
      rolledBack := rolledBack + [tc.id];
      tc.idleExpired := true;
      idleNotice := true;
      RetireTransactionContext();
    }

    method IsBlocked() returns (blocked: bool)
      requires Valid()
      ensures blocked == Blocked(View())
    {
      return statementDepth > 0 || idleCliHold > 0;
    }

    method RearmIdle()
      requires Valid() && tc != null
      modifies this`timers, tc
      ensures Valid() && View() == Rearm(old(View()))
    {
      if tc.idle <= 0 || !tc.userWork {
        CancelIdleTimer();
        return;
      }
      CancelIdleTimer();
      tc.needsRearm := false;
      tc.elapsedHeld := false;
      tc.gen := tc.gen + 1;
      var deadline := clock + tc.idle;
      tc.armed := Some(Timer(tc.id, tc.gen, deadline));
      timers := timers + {tc.armed.value};
    }

    method NoteIdleUserWork()
      requires Valid()
      modifies this`timers, Owned()
      ensures Valid() && View() == NoteWork(old(View()))
    {
      if tc == null {
        return;
      }
      tc.userWork := true;
      tc.lastUser := clock;
      tc.elapsedHeld := false;
      var blocked := IsBlocked();
      if blocked {
        CancelIdleTimer();
        tc.needsRearm := tc.idle > 0;
        return;
      }
      RearmIdle();
    }

    method MaybeRearmOrExpireIdle()
      requires Valid()
      modifies this, Owned()
      ensures Valid() && View() == RearmOrExpire(old(View()))
      ensures tc == old(tc) || tc == null
    {
      if tc == null {
        return;
      }
      var blocked := IsBlocked();
      if blocked {
        return;
      }
      if tc.needsRearm {
        if tc.idle <= 0 || !tc.userWork {
          tc.needsRearm := false;
          tc.elapsedHeld := false;
          CancelIdleTimer();
          return;
        }
        RearmIdle();
        return;
      }
      if tc.elapsedHeld {
        RollbackAndRetireIdle();
      }
    }

    /** The watcher goroutine of t, whose deadline passed, takes the lock. */
    method TryIdleExpire(t: Timer)
      requires Valid() && Can(View(), Fire(t))
      modifies this, Owned()
      ensures Valid() && View() == Do(old(View()), Fire(t))
    {
      timers := timers - {t};
      if tc == null || tc.id != t.owner || tc.gen != t.gen {
        return;
      }
      if tc.idle <= 0 || !tc.userWork {
        return;
      }
      var blocked := IsBlocked();
      if blocked {
        tc.elapsedHeld := true;
        return;
      }
      RollbackAndRetireIdle();
    }

    method BeginIdleResultHold()
      requires Valid()
      modifies this`idleCliHold
      ensures Valid() && View() == Do(old(View()), BeginHold)
    {
      idleCliHold := idleCliHold + 1;
    }

    method EndIdleResultHold()
      requires Valid()
      modifies this, Owned()
      ensures Valid() && View() == Do(old(View()), EndHold)
    {
      if idleCliHold > 0 {
        idleCliHold := idleCliHold - 1;
      }
      if tc != null {
        MaybeRearmOrExpireIdle();
      }
    }

    /** Frozen once work was admitted: the interval is then kept and the call refused. */
    method ApplyLocalIdleTimeout(idle: int) returns (refused: bool)
      requires Valid()
      modifies this`timers, Owned()
      ensures Valid() && View() == Do(old(View()), SetLocal(idle))
      ensures refused <==> old(tc == null || (tc.userWork && tc.idle != idle))
    {
      if tc == null {
        return true;
      }
      if tc.userWork && tc.idle != idle {
        return true;
      }
      tc.idle := idle;
      if !tc.userWork {
        CancelIdleTimer();
      }
      return false;
    }

    method EnterStatementFrame()
      requires Valid()
      modifies this`statementDepth
      ensures Valid() && View() == Do(old(View()), EnterStatement)
    {
      statementDepth := statementDepth + 1;
    }

    method RetireIdleIfPending() returns (retired: bool)
      requires Valid()
      modifies this, Owned()
      ensures Valid()
      ensures retired <==> old(tc != null && tc.expirePending && tc.idleExpired)
      ensures View() == if retired then RollBack(old(View())) else old(View())
      ensures !retired ==> tc == old(tc)
    {
      if tc == null || !tc.expirePending || !tc.idleExpired {
        return false;
      }
      RollbackAndRetireIdle();
      return true;
    }

    method LeaveStatementFrame()
      requires Valid()
      modifies this, Owned()
      ensures Valid() && View() == Do(old(View()), LeaveStatement)
    {
      if statementDepth > 0 {
        statementDepth := statementDepth - 1;
      }
      if statementDepth == 0 && tc != null && tc.expirePending {
        var retired := RetireIdleIfPending();
        if !retired {
          RetireTransactionContext();
        }
      } else if statementDepth == 0 && tc != null {
        MaybeRearmOrExpireIdle();
      }
    }

    method SyncExpiredOwner()
      requires Valid()
      modifies this, Owned()
      ensures Valid() && View() == Do(old(View()), Sync)
    {
      if tc != null && tc.expirePending {
        var retired := RetireIdleIfPending();
        if !retired {
          RetireTransactionContext();
        }
      }
    }

    /** The transaction timeout of the live owner. */
    method RetireMatchingOwner()
      requires Valid()
      modifies this, Owned()
      ensures Valid() && View() == Do(old(View()), TimeOut)
    {
      if tc == null {
        return;
      }
      if statementDepth > 0 {
        tc.expirePending := true;
        CancelIdleTimer();
      } else {
        RetireTransactionContext();
      }
    }

    /** The one-shot error after expiry; acknowledging statements swallow it. */
    method ConsumeIdleNotice(ack: bool) returns (reported: bool)
      requires Valid()
      modifies this`idleNotice
      ensures Valid() && View() == Do(old(View()), ConsumeNotice)
      ensures reported <==> old(idleNotice) && !ack
    {
      if !idleNotice {
        return false;
      }
      idleNotice := false;
      return !ack;
    }
  }
}
