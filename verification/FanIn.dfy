/** runPartitionedRowSeq (internal/mycli/execute_partitioned.go) as a protocol. */
module FanIn {
  import opened TableIds

  // One submitter, bounded workers, an unbuffered channel, one consumer, cancellation. Every
  // interleaving is a run.

  /** A partition yields `rows` rows, then ends or fails. Its metadata is visible from the fetch
      numbered `reportsAt` on, if ever. A failure may itself look like a cancellation. */
  datatype Partition = Partition(rows: nat, failure: Option<bool>, reportsAt: Option<nat>)

  datatype Config = Config(parts: seq<Partition>, parallelism: int)

  /** A channel item: row number `index` of a partition, or its terminal error. */
  datatype Item = Row(part: nat, index: nat) | Failure(part: nat, index: nat, canceled: bool)

  datatype Worker = Idle | Fetching(next: nat) | Sending(item: Item) | Done(error: Option<bool>)

  datatype Submitter = AtLoop(next: nat) | AtGo(next: nat) | Waiting | Posted | Closed

  /** The consuming goroutine: before its first receive; about to load the captured metadata;
      holding control, perhaps with the first item still to be yielded; blocked in a receive; past
      the end of the sequence; releasing producers after consume returned; waiting for the
      producers' result; returned. */
  datatype Consumer =
    | WaitFirst
    | Loading(first: Option<Item>)
    | Deciding(first: Option<Item>)
    | Reading
    | Ended
    | Draining
    | AwaitProducers
    | Returned(success: bool)

  datatype State = State(
    workers: seq<Worker>, submitter: Submitter, consumer: Consumer,
    parentCanceled: bool, childCanceled: bool, captured: bool,
    handed: seq<Item>,         // items received before consume returned, in order
    metadata: Option<bool>,    // what consume was given: whether metadata was there
    sawEnd: bool,              // consume saw the closed channel
    consumeErr: bool)          // consume returned an error

  function Limit(cfg: Config): nat {
    if cfg.parallelism < 1 then 1 else cfg.parallelism
  }

  function Init(cfg: Config): State {
    State(seq(|cfg.parts|, _ => Idle), AtLoop(0), WaitFirst, false, false, false, [], None, false, false)
  }

  predicate IsRunning(w: Worker) {
    w.Fetching? || w.Sending?
  }

  function Running(ws: seq<Worker>): nat {
    if ws == [] then 0 else Running(ws[..|ws| - 1]) + if IsRunning(ws[|ws| - 1]) then 1 else 0
  }

  predicate HasReported(cfg: Config, i: nat, fetch: nat)
    requires i < |cfg.parts|
  {
    cfg.parts[i].reportsAt.Some? && cfg.parts[i].reportsAt.value <= fetch
  }

  /** What a fetch cut off by cancellation leaves visible: the report of its own response if that
      was in, else only what an earlier response showed. */
  predicate Shown(cfg: Config, i: nat, fetch: nat, responded: bool)
    requires i < |cfg.parts|
  {
    if responded then HasReported(cfg, i, fetch) else fetch > 0 && HasReported(cfg, i, fetch - 1)
  }

  datatype Step =
    | CancelParent              // timeout or interrupt from outside
    | Loop                      // the submit loop tests for cancellation
    | Go                        // pool.Go gets a free worker
    | Wait                      // pool.Wait returns and its result is posted
    | Close                     // close(ch)
    | Fetch(i: nat)             // a worker's iterator advances
    | FetchCanceled(i: nat, responded: bool) // it fails on cancellation, its response in or not
    | Handoff(i: nat)           // send and receive meet
    | Abandon(i: nat)           // a blocked send gives up on cancellation
    | SeeClosed                 // a receive finds the channel closed
    | Load                      // the captured metadata is read for consume
    | YieldFirst                // the held-back first item is yielded
    | Ask                       // consume asks for another item
    | Return(error: bool)       // consume returns
    | Finish                    // the producers' result is read, the outcome decided

  predicate IsWorkerStep(step: Step) {
    step.Fetch? || step.FetchCanceled? || step.Handoff? || step.Abandon?
  }

  predicate Receives(c: Consumer) {
    c.WaitFirst? || c.Reading? || c.Draining?
  }

  predicate Can(cfg: Config, s: State, step: Step) {
    match step
    case CancelParent => !s.parentCanceled && !s.consumer.Returned?
    case Loop => s.submitter.AtLoop?
    case Go => s.submitter.AtGo? && s.submitter.next < |s.workers| && Running(s.workers) < Limit(cfg)
    case Wait => s.submitter.Waiting? && Running(s.workers) == 0
    case Close => s.submitter.Posted?
    case Fetch(i) => i < |s.workers| && i < |cfg.parts| && s.workers[i].Fetching?
    case FetchCanceled(i, _) => i < |s.workers| && i < |cfg.parts| && s.workers[i].Fetching? && s.childCanceled
    case Handoff(i) => i < |s.workers| && s.workers[i].Sending? && Receives(s.consumer)
    case Abandon(i) => i < |s.workers| && s.workers[i].Sending? && s.childCanceled
    case SeeClosed => s.submitter.Closed? && Receives(s.consumer)
    case Load => s.consumer.Loading?
    case YieldFirst => s.consumer.Deciding? && s.consumer.first.Some?
    case Ask => s.consumer == Deciding(None)
    case Return(_) => s.consumer.Deciding? || s.consumer.Ended?
    case Finish => s.consumer.AwaitProducers? && (s.submitter.Posted? || s.submitter.Closed?)
  }

  /** A worker after its item was taken. */
  function AfterSend(item: Item): Worker {
    match item
    case Row(_, k) => Fetching(k + 1)
    case Failure(_, _, canceled) => Done(Some(canceled))
  }

  /** A worker that gives up its send. */
  function AfterAbandon(item: Item): Worker {
    match item
    case Row(_, _) => Done(Some(true))
    case Failure(_, _, canceled) => Done(Some(canceled))
  }

  /** The consumer after a receive. */
  function AfterReceive(c: Consumer, item: Item): Consumer {
    match c
    case WaitFirst => Loading(Some(item))
    case Reading => if item.Failure? then Ended else Deciding(None)
    case _ => c
  }

  function AfterClosed(c: Consumer): Consumer {
    match c
    case WaitFirst => Loading(None)
    case Reading => Ended
    case Draining => AwaitProducers
    case _ => c
  }

  function Fetched(part: Partition, i: nat, k: nat): Worker {
    if k < part.rows then Sending(Row(i, k))
    else match part.failure
         case Some(canceled) => Sending(Failure(i, k, canceled))
         case None => Done(None)
  }

  predicate AnyError(ws: seq<Worker>) {
    exists i :: 0 <= i < |ws| && ws[i].Done? && ws[i].error.Some?
  }

  predicate AnyCanceled(ws: seq<Worker>) {
    exists i :: 0 <= i < |ws| && ws[i] == Done(Some(true))
  }

  /** consume's error first, then a producer error that is not a cancellation, then the parent's. */
  predicate Succeeds(s: State) {
    !s.consumeErr && !(AnyError(s.workers) && !AnyCanceled(s.workers)) && !s.parentCanceled
  }

  function Do(cfg: Config, s: State, step: Step): State
    requires Can(cfg, s, step)
  {
    match step
    case CancelParent => s.(parentCanceled := true, childCanceled := true)
    case Loop =>
      var k := s.submitter.next;
      s.(submitter := if k >= |s.workers| || s.childCanceled then Waiting else AtGo(k))
    case Go => s.(workers := s.workers[s.submitter.next := Fetching(0)], submitter := AtLoop(s.submitter.next + 1))
    case Wait => s.(submitter := Posted)
    case Close => s.(submitter := Closed)
    case Fetch(i) =>
      var k := s.workers[i].next;
      s.(workers := s.workers[i := Fetched(cfg.parts[i], i, k)], captured := s.captured || HasReported(cfg, i, k))
    case FetchCanceled(i, responded) =>
      var k := s.workers[i].next;
      s.(workers := s.workers[i := Sending(Failure(i, k, true))], captured := s.captured || Shown(cfg, i, k, responded))
    case Handoff(i) =>
      var item := s.workers[i].item;
      s.(workers := s.workers[i := AfterSend(item)],
         consumer := AfterReceive(s.consumer, item),
         handed := if s.consumer.Draining? then s.handed else s.handed + [item])
    case Abandon(i) => s.(workers := s.workers[i := AfterAbandon(s.workers[i].item)])
    case SeeClosed =>
      s.(consumer := AfterClosed(s.consumer),
         sawEnd := s.sawEnd || s.consumer.Reading?)
    case Load => s.(consumer := Deciding(s.consumer.first), metadata := Some(s.captured))
    case YieldFirst => s.(consumer := if s.consumer.first.value.Failure? then Ended else Deciding(None))
    case Ask => s.(consumer := Reading)
    case Return(error) => s.(consumer := Draining, consumeErr := error, childCanceled := true)
    case Finish => s.(consumer := Returned(Succeeds(s)))
  }

  // ---- Runs ----

  ghost predicate IsRun(cfg: Config, states: seq<State>, steps: seq<Step>) {
    && |states| == |steps| + 1 && states[0] == Init(cfg)
    && forall t :: 0 <= t < |steps| ==> Can(cfg, states[t], steps[t]) && states[t + 1] == Do(cfg, states[t], steps[t])
  }

  // ---- What every reachable state satisfies ----

  /** consume has returned. */
  predicate Past(c: Consumer) {
    c.Draining? || c.AwaitProducers? || c.Returned?
  }

  /** The items of one partition, in order. */
  function PerPart(items: seq<Item>, i: nat): seq<Item> {
    if items == [] then []
    else PerPart(items[..|items| - 1], i) + if items[|items| - 1].part == i then [items[|items| - 1]] else []
  }

  function Rows(i: nat, n: nat): seq<Item> {
    if n == 0 then [] else Rows(i, n - 1) + [Row(i, n - 1)]
  }

  predicate AnyFailure(items: seq<Item>) {
    exists k :: 0 <= k < |items| && items[k].Failure?
  }

  /** Every row of every partition, once, in order within its partition, and nothing else. */
  ghost predicate Complete(cfg: Config, items: seq<Item>) {
    forall i :: 0 <= i < |cfg.parts| ==> cfg.parts[i].failure.None? && PerPart(items, i) == Rows(i, cfg.parts[i].rows)
  }

  /** How far the submitter has come. */
  function Submitted(s: State): nat {
    match s.submitter
    case AtLoop(k) => k
    case AtGo(k) => k
    case _ => |s.workers|
  }

  ghost predicate SubmitInv(cfg: Config, s: State) {
    && |s.workers| == |cfg.parts| && Submitted(s) <= |s.workers|
    && (s.submitter.AtGo? ==> s.submitter.next < |s.workers|)
    && (s.submitter.AtLoop? || s.submitter.AtGo? || !s.childCanceled ==>
          forall j :: 0 <= j < |s.workers| ==> (s.workers[j].Idle? <==> j >= Submitted(s)))
    && (s.submitter.Posted? || s.submitter.Closed? ==> forall j :: 0 <= j < |s.workers| ==> !IsRunning(s.workers[j]))
    && Running(s.workers) <= Limit(cfg)
  }

  ghost predicate ControlInv(cfg: Config, s: State) {
    && (s.childCanceled <==> s.parentCanceled || Past(s.consumer))
    && (s.consumer.AwaitProducers? || s.consumer.Returned? ==> s.submitter.Closed?)
    && (s.metadata.None? <==> s.consumer.WaitFirst? || s.consumer.Loading?)
    && (s.consumer.WaitFirst? || s.consumer == Loading(None) ==> s.handed == [])
    && (s.consumer.Loading? && s.consumer.first.Some? ==> s.handed == [s.consumer.first.value])
    && (s.consumer.Deciding? && s.consumer.first.Some? ==> s.handed == [s.consumer.first.value])
    && (s.consumer.Reading? || s.consumer == Deciding(None) ==> !AnyFailure(s.handed))
    && (s.sawEnd ==> s.consumer.Ended? || Past(s.consumer))
    && (s.sawEnd ==> s.parentCanceled || Complete(cfg, s.handed))
    && (s.consumeErr ==> Past(s.consumer))
  }

  /** Until consume returns, what was handed over says where each worker stands. */
  ghost predicate Track(cfg: Config, s: State, i: nat)
    requires i < |cfg.parts| && i < |s.workers|
  {
    var part, ph := cfg.parts[i], PerPart(s.handed, i);
    match s.workers[i]
    case Idle => ph == []
    case Fetching(k) => k <= part.rows && ph == Rows(i, k)
    case Sending(Row(p, k)) => p == i && k < part.rows && ph == Rows(i, k)
    case Sending(Failure(p, k, c)) => p == i && k <= part.rows && ph == Rows(i, k) &&
                                      (s.parentCanceled || part.failure == Some(c))
    case Done(e) => s.parentCanceled || (e.None? && part.failure.None? && ph == Rows(i, part.rows))
                    || (e.Some? && AnyFailure(s.handed))
  }

  ghost predicate TrackInv(cfg: Config, s: State) {
    |s.workers| == |cfg.parts| && (!Past(s.consumer) ==> forall i :: 0 <= i < |s.workers| ==> Track(cfg, s, i))
  }

  // ---- Counting and selecting ----

  lemma {:induction false} RunningUpdate(ws: seq<Worker>, i: nat, w: Worker)
    requires i < |ws|
    ensures Running(ws[i := w]) == Running(ws) - (if IsRunning(ws[i]) then 1 else 0) + (if IsRunning(w) then 1 else 0)
  {
    var n := |ws| - 1;
    if i == n {
      assert ws[i := w][..n] == ws[..n];
    } else {
      RunningUpdate(ws[..n], i, w);
      assert ws[i := w][..n] == ws[..n][i := w];
    }
  }

  lemma {:induction false} RunningZero(ws: seq<Worker>)
    ensures Running(ws) == 0 <==> forall j :: 0 <= j < |ws| ==> !IsRunning(ws[j])
  {
    if ws != [] {
      RunningZero(ws[..|ws| - 1]);
    }
  }

  lemma PerPartAppend(items: seq<Item>, item: Item, i: nat)
    ensures PerPart(items + [item], i) == PerPart(items, i) + if item.part == i then [item] else []
  {
    assert (items + [item])[..|items|] == items;
  }

  // ---- Each step keeps the invariants ----

  lemma InitInv(cfg: Config)
    ensures SubmitInv(cfg, Init(cfg)) && ControlInv(cfg, Init(cfg)) && TrackInv(cfg, Init(cfg))
  {
    RunningZero(Init(cfg).workers);
  }

  /** A worker's step changes that worker alone, which was running and is not idle afterwards. */
  lemma WorkerEffect(cfg: Config, s: State, step: Step)
    requires IsWorkerStep(step) && Can(cfg, s, step)
    ensures step.i < |s.workers| == |Do(cfg, s, step).workers| && IsRunning(s.workers[step.i])
    ensures var s' := Do(cfg, s, step);
      !s'.workers[step.i].Idle? && s'.workers == s.workers[step.i := s'.workers[step.i]]
      && s'.submitter == s.submitter && s'.childCanceled == s.childCanceled
  {
    hide Succeeds; hide Running; hide HasReported; hide Shown; hide AfterReceive;
    match step
    case Fetch(i) =>
    case FetchCanceled(i, _) =>
    case Handoff(i) =>
    case Abandon(i) =>
  }

  lemma WorkerSubmit(cfg: Config, s: State, step: Step)
    requires SubmitInv(cfg, s) && IsWorkerStep(step) && Can(cfg, s, step)
    ensures SubmitInv(cfg, Do(cfg, s, step))
  {
    WorkerEffect(cfg, s, step);
    RunningUpdate(s.workers, step.i, Do(cfg, s, step).workers[step.i]);
    hide Running; hide Do; hide Can; hide IsWorkerStep;
  }

  lemma GoSubmit(cfg: Config, s: State)
    requires SubmitInv(cfg, s) && Can(cfg, s, Go)
    ensures SubmitInv(cfg, Do(cfg, s, Go))
  {
    RunningUpdate(s.workers, s.submitter.next, Fetching(0));
    hide Running;
  }

  lemma StepSubmit(cfg: Config, s: State, step: Step)
    requires SubmitInv(cfg, s) && Can(cfg, s, step) && (s.submitter.Closed? || !s.consumer.Returned?)
    ensures SubmitInv(cfg, Do(cfg, s, step))
  {
    if IsWorkerStep(step) {
      WorkerSubmit(cfg, s, step);
    } else if step.Go? {
      GoSubmit(cfg, s);
    } else {
      hide Complete; hide Succeeds; hide HasReported; hide Shown; hide Fetched; hide AfterReceive;
      RunningZero(s.workers);
      hide Running;
      assert Do(cfg, s, step).workers == s.workers;
    }
  }

  /** A worker's own step touches no other worker; what was handed over says the same as before. */
  lemma FetchTrack(cfg: Config, s: State, step: Step, j: nat)
    requires TrackInv(cfg, s) && (step.Fetch? || step.FetchCanceled? || step.Abandon?) && Can(cfg, s, step)
    requires ControlInv(cfg, s) && !Past(s.consumer) && j < |s.workers|
    ensures Track(cfg, Do(cfg, s, step), j)
  {
    assert Track(cfg, s, j);
    hide Complete; hide Succeeds; hide Running; hide AnyFailure; hide PerPart; hide HasReported; hide Shown;
  }

  lemma OtherTrack(cfg: Config, s: State, step: Step, j: nat)
    requires TrackInv(cfg, s) && !IsWorkerStep(step) && Can(cfg, s, step) && !Past(s.consumer) && j < |s.workers|
    requires SubmitInv(cfg, s)
    ensures Track(cfg, Do(cfg, s, step), j)
  {
    assert Track(cfg, s, j);
    hide Complete; hide Succeeds; hide Running; hide AnyFailure; hide PerPart; hide HasReported; hide Shown;
    hide Fetched; hide AfterReceive; hide AfterSend;
  }

  lemma StepTrack(cfg: Config, s: State, step: Step)
    requires SubmitInv(cfg, s) && ControlInv(cfg, s) && TrackInv(cfg, s) && Can(cfg, s, step)
    ensures TrackInv(cfg, Do(cfg, s, step))
  {
    StepKeeps(cfg, s, step);
    var s' := Do(cfg, s, step);
    hide Do; hide Can; hide Track; hide Past; hide SubmitInv; hide ControlInv;
    if !Past(s'.consumer) {
      forall j | 0 <= j < |s'.workers| ensures Track(cfg, s', j) {
        if step.Handoff? {
          HandoffTrack(cfg, s, step.i, j);
        } else if IsWorkerStep(step) {
          FetchTrack(cfg, s, step, j);
        } else {
          OtherTrack(cfg, s, step, j);
        }
      }
    }
  }

  /** No step adds a worker or goes back before the return of consume. */
  lemma StepKeeps(cfg: Config, s: State, step: Step)
    requires Can(cfg, s, step)
    ensures |Do(cfg, s, step).workers| == |s.workers|
    ensures Past(s.consumer) ==> Past(Do(cfg, s, step).consumer)
  {
    hide Succeeds; hide Running; hide HasReported; hide Shown; hide Fetched; hide AnyFailure;
    match step
    case CancelParent =>
    case Loop =>
    case Go =>
    case Wait =>
    case Close =>
    case Fetch(_) =>
    case FetchCanceled(_, _) =>
    case Handoff(_) =>
    case Abandon(_) =>
    case SeeClosed =>
    case Load =>
    case YieldFirst =>
    case Ask =>
    case Return(_) =>
    case Finish =>
  }

  lemma HandoffEffect(cfg: Config, s: State, i: nat)
    requires Can(cfg, s, Handoff(i)) && !Past(s.consumer)
    ensures i < |s.workers| && s.workers[i].Sending?
    ensures var s', item := Do(cfg, s, Handoff(i)), s.workers[i].item;
      s'.workers == s.workers[i := AfterSend(item)] && s'.handed == s.handed + [item]
      && s'.parentCanceled == s.parentCanceled
  {
  }

  lemma HandoffTrack(cfg: Config, s: State, i: nat, j: nat)
    requires TrackInv(cfg, s) && Can(cfg, s, Handoff(i)) && !Past(s.consumer) && j < |s.workers|
    ensures Track(cfg, Do(cfg, s, Handoff(i)), j)
  {
    HandoffEffect(cfg, s, i);
    assert Track(cfg, s, i) && Track(cfg, s, j);
    PerPartAppend(s.handed, s.workers[i].item, j);
    FailureAppend(s.handed, s.workers[i].item);
    hide PerPart; hide AnyFailure; hide TrackInv; hide Do; hide Can; hide Past;
  }

  lemma FailureAppend(items: seq<Item>, item: Item)
    ensures AnyFailure(items + [item]) <==> AnyFailure(items) || item.Failure?
  {
    var all := items + [item];
    if AnyFailure(items) {
      var k :| 0 <= k < |items| && items[k].Failure?;
      assert all[k].Failure?;
    }
    assert all[|items|] == item;
  }

  lemma StepControl(cfg: Config, s: State, step: Step)
    requires SubmitInv(cfg, s) && ControlInv(cfg, s) && TrackInv(cfg, s) && Can(cfg, s, step)
    ensures ControlInv(cfg, Do(cfg, s, step))
  {
    if step.Handoff? {
      HandoffControl(cfg, s, step.i);
    } else if IsWorkerStep(step) {
      FetchControl(cfg, s, step);
    } else {
      if step.SeeClosed? && s.consumer.Reading? && !s.parentCanceled {
        EndIsComplete(cfg, s);
      }
      if step.YieldFirst? {
        OnlyFailure(s.consumer.first.value);
      }
      NoFailure();
      hide Complete; hide Succeeds; hide Running; hide AnyFailure; hide PerPart; hide HasReported; hide Shown;
      hide Fetched; hide AfterReceive; hide AfterSend; hide Track; hide TrackInv;
    }
  }

  lemma NoFailure()
    ensures !AnyFailure([])
  {
  }

  lemma OnlyFailure(item: Item)
    ensures AnyFailure([item]) <==> item.Failure?
  {
    assert [item][0] == item;
  }

  lemma HandoffControl(cfg: Config, s: State, i: nat)
    requires ControlInv(cfg, s) && Can(cfg, s, Handoff(i)) && SubmitInv(cfg, s)
    ensures ControlInv(cfg, Do(cfg, s, Handoff(i)))
  {
    FailureAppend(s.handed, s.workers[i].item);
    hide Complete; hide Succeeds; hide Running; hide AnyFailure; hide PerPart; hide HasReported; hide Shown;
    hide Fetched;
  }

  lemma FetchControl(cfg: Config, s: State, step: Step)
    requires (step.Fetch? || step.FetchCanceled? || step.Abandon?) && ControlInv(cfg, s) && Can(cfg, s, step)
    ensures ControlInv(cfg, Do(cfg, s, step))
  {
    hide Complete; hide Succeeds; hide Running; hide AnyFailure; hide PerPart; hide HasReported; hide Shown;
    hide Fetched;
  }

  /** If the channel is closed while consume still reads and nobody canceled, everything was handed
      over. */
  lemma EndIsComplete(cfg: Config, s: State)
    requires SubmitInv(cfg, s) && ControlInv(cfg, s) && TrackInv(cfg, s)
    requires s.submitter.Closed? && s.consumer.Reading? && !s.parentCanceled
    ensures Complete(cfg, s.handed)
  {
    forall i | 0 <= i < |cfg.parts|
      ensures cfg.parts[i].failure.None? && PerPart(s.handed, i) == Rows(i, cfg.parts[i].rows)
    {
      assert Track(cfg, s, i);
      assert !s.workers[i].Idle? && !IsRunning(s.workers[i]);
    }
  }

  ghost predicate Inv(cfg: Config, s: State) {
    SubmitInv(cfg, s) && ControlInv(cfg, s) && TrackInv(cfg, s)
  }

  lemma {:induction false} RunInv(cfg: Config, states: seq<State>, steps: seq<Step>, t: nat)
    requires IsRun(cfg, states, steps) && t < |states|
    ensures Inv(cfg, states[t])
  {
    if t == 0 {
      InitInv(cfg);
    } else {
      RunInv(cfg, states, steps, t - 1);
      var s, step := states[t - 1], steps[t - 1];
      assert Can(cfg, s, step) && states[t] == Do(cfg, s, step);
      StepSubmit(cfg, s, step);
      StepTrack(cfg, s, step);
      StepControl(cfg, s, step);
    }
  }

  // ---- Safety ----

  /** consume reads to the end, or returns an error because it was handed one. */
  ghost predicate Honest(s: State) {
    s.sawEnd || (AnyFailure(s.handed) && s.consumeErr)
  }

  /** A truncated result is never reported as success. */
  lemma SuccessIsComplete(cfg: Config, states: seq<State>, steps: seq<Step>, t: nat)
    requires IsRun(cfg, states, steps) && t < |steps| && steps[t] == Finish
    requires states[t + 1].consumer == Returned(true) && Honest(states[t + 1])
    ensures Complete(cfg, states[t + 1].handed)
  {
    RunInv(cfg, states, steps, t);
    assert Can(cfg, states[t], steps[t]) && states[t + 1] == Do(cfg, states[t], steps[t]);
  }

  // ---- Exactly when the call succeeds ----

  /** Whether an outside cancellation came, and what consume returned, read off the steps. */
  ghost predicate CanceledBefore(steps: seq<Step>, n: nat) {
    exists m :: 0 <= m < n && m < |steps| && steps[m] == CancelParent
  }

  ghost predicate ReturnedBefore(steps: seq<Step>, n: nat, error: bool) {
    exists m :: 0 <= m < n && m < |steps| && steps[m] == Return(error)
  }

  lemma StepRemembers(cfg: Config, s: State, step: Step)
    requires Can(cfg, s, step)
    ensures var s' := Do(cfg, s, step);
      && (s'.parentCanceled <==> s.parentCanceled || step == CancelParent)
      && (step.Return? ==> !Past(s.consumer)) && (Past(s'.consumer) <==> Past(s.consumer) || step.Return?)
      && s'.consumeErr == if step.Return? then step.error else s.consumeErr
  {
    hide Succeeds; hide Running; hide HasReported; hide Shown; hide Fetched; hide AnyFailure; hide Complete;
    match step
    case CancelParent =>
    case Loop =>
    case Go =>
    case Wait =>
    case Close =>
    case Fetch(_) =>
    case FetchCanceled(_, _) =>
    case Handoff(_) =>
    case Abandon(_) =>
    case SeeClosed =>
    case Load =>
    case YieldFirst =>
    case Ask =>
    case Return(_) =>
    case Finish =>
  }

  lemma {:induction false} RunRemembers(cfg: Config, states: seq<State>, steps: seq<Step>, n: nat)
    requires IsRun(cfg, states, steps) && n < |states|
    ensures states[n].parentCanceled <==> CanceledBefore(steps, n)
    ensures Past(states[n].consumer) <==> ReturnedBefore(steps, n, false) || ReturnedBefore(steps, n, true)
    ensures Past(states[n].consumer) ==> (states[n].consumeErr <==> ReturnedBefore(steps, n, true))
    ensures !(ReturnedBefore(steps, n, false) && ReturnedBefore(steps, n, true))
  {
    if n > 0 {
      RunRemembers(cfg, states, steps, n - 1);
      assert Can(cfg, states[n - 1], steps[n - 1]) && states[n] == Do(cfg, states[n - 1], steps[n - 1]);
      hide Can; hide Do; hide Past; hide IsRun;
      StepRemembers(cfg, states[n - 1], steps[n - 1]);
      BeforeNext(steps, n - 1);
      hide CanceledBefore; hide ReturnedBefore;
    }
  }

  lemma BeforeNext(steps: seq<Step>, n: nat)
    requires n < |steps|
    ensures CanceledBefore(steps, n + 1) <==> CanceledBefore(steps, n) || steps[n] == CancelParent
    ensures forall e :: ReturnedBefore(steps, n + 1, e) <==> ReturnedBefore(steps, n, e) || steps[n] == Return(e)
  {
  }

  /** The call returns nil if and only if consume returned nil, nobody canceled from outside, and no
      worker ended with an error or some worker ended cancelled. */
  lemma FinishExactly(cfg: Config, states: seq<State>, steps: seq<Step>, t: nat)
    requires IsRun(cfg, states, steps) && t < |steps| && steps[t] == Finish
    ensures states[t + 1].consumer.Returned?
    ensures states[t + 1].consumer == Returned(true) <==>
            && (exists m :: 0 <= m < t && steps[m] == Return(false))
            && (forall m :: 0 <= m < t ==> steps[m] != CancelParent)
            && ((forall i :: 0 <= i < |states[t].workers| && states[t].workers[i].Done? ==>
                   states[t].workers[i].error.None?)
                || exists i :: 0 <= i < |states[t].workers| && states[t].workers[i] == Done(Some(true)))
  {
    RunRemembers(cfg, states, steps, t);
    assert Can(cfg, states[t], steps[t]) && states[t + 1] == Do(cfg, states[t], steps[t]);
    ErrorsOf(states[t].workers);
    assert Past(states[t].consumer);
    assert t < |steps|;
  }

  lemma ErrorsOf(ws: seq<Worker>)
    ensures AnyError(ws) <==> !forall i :: 0 <= i < |ws| && ws[i].Done? ==> ws[i].error.None?
    ensures AnyCanceled(ws) <==> exists i :: 0 <= i < |ws| && ws[i] == Done(Some(true))
  {
  }

  /** An error that is not a cancellation is one of the partition's own. */
  ghost predicate OwnErrors(cfg: Config, s: State) {
    && |s.workers| == |cfg.parts|
    && forall i :: 0 <= i < |s.workers| ==>
         match s.workers[i]
         case Sending(Failure(_, _, c)) => c || cfg.parts[i].failure == Some(false)
         case Done(e) => e == Some(false) ==> cfg.parts[i].failure == Some(false)
         case _ => true
  }

  lemma StepOwnErrors(cfg: Config, s: State, step: Step)
    requires OwnErrors(cfg, s) && Can(cfg, s, step)
    ensures OwnErrors(cfg, Do(cfg, s, step))
  {
    hide Succeeds; hide Running; hide HasReported; hide Shown; hide AfterReceive; hide AnyFailure; hide Complete;
    if !IsWorkerStep(step) {
      hide Fetched; hide AfterSend; hide AfterAbandon;
    }
  }

  lemma {:induction false} RunOwnErrors(cfg: Config, states: seq<State>, steps: seq<Step>, n: nat)
    requires IsRun(cfg, states, steps) && n < |states|
    ensures OwnErrors(cfg, states[n])
  {
    if n > 0 {
      RunOwnErrors(cfg, states, steps, n - 1);
      assert Can(cfg, states[n - 1], steps[n - 1]) && states[n] == Do(cfg, states[n - 1], steps[n - 1]);
      StepOwnErrors(cfg, states[n - 1], steps[n - 1]);
    }
  }

  /** If no partition fails, nobody cancels from outside and consume returns nil, whether or not it
      read to the end, the call returns nil; an empty result is no exception. */
  lemma CleanRunSucceeds(cfg: Config, states: seq<State>, steps: seq<Step>, t: nat)
    requires IsRun(cfg, states, steps) && t < |steps| && steps[t] == Finish
    requires forall i :: 0 <= i < |cfg.parts| ==> cfg.parts[i].failure.None?
    requires forall m :: 0 <= m < t ==> steps[m] != CancelParent
    requires exists m :: 0 <= m < t && steps[m] == Return(false)
    ensures states[t + 1].consumer == Returned(true)
  {
    FinishExactly(cfg, states, steps, t);
    RunOwnErrors(cfg, states, steps, t);
    var ws := states[t].workers;
    if i :| 0 <= i < |ws| && ws[i].Done? && ws[i].error.Some? {
      var canceled := ws[i].error.value;
      assert ws[i] == Done(Some(canceled)) && cfg.parts[i].failure.None?;
      if !canceled {
        assert false;
      }
    }
  }

  /** A worker's own error is reported, unless another worker ended cancelled. */
  lemma ErrorIsReturned(cfg: Config, states: seq<State>, steps: seq<Step>, t: nat, i: nat)
    requires IsRun(cfg, states, steps) && t < |steps| && steps[t] == Finish
    requires i < |states[t].workers| && states[t].workers[i] == Done(Some(false))
    requires forall j :: 0 <= j < |states[t].workers| ==> states[t].workers[j] != Done(Some(true))
    ensures states[t + 1].consumer == Returned(false)
  {
    FinishExactly(cfg, states, steps, t);
    assert states[t].workers[i].Done? && states[t].workers[i].error.Some?;
    assert states[t + 1].consumer == Returned(states[t + 1].consumer.success) != Returned(true);
  }

  // ---- No new partitions after a cancellation ----

  /** The submitter still holds a partition for which it saw no cancellation. */
  predicate MayGo(s: State) {
    s.submitter.AtGo?
  }

  lemma StepCanceled(cfg: Config, s: State, step: Step)
    requires Can(cfg, s, step) && s.childCanceled
    ensures Do(cfg, s, step).childCanceled
    ensures MayGo(Do(cfg, s, step)) ==> MayGo(s) && step != Go
    ensures step == Go ==> MayGo(s)
  {
    hide Succeeds; hide Running; hide HasReported; hide Shown; hide Fetched; hide AfterReceive; hide AfterSend;
    match step
    case CancelParent =>
    case Loop =>
    case Go =>
    case Wait =>
    case Close =>
    case Fetch(_) =>
    case FetchCanceled(_, _) =>
    case Handoff(_) =>
    case Abandon(_) =>
    case SeeClosed =>
    case Load =>
    case YieldFirst =>
    case Ask =>
    case Return(_) =>
    case Finish =>
  }

  lemma {:induction false} StaysCanceled(cfg: Config, states: seq<State>, steps: seq<Step>, m: nat, n: nat)
    requires IsRun(cfg, states, steps) && m <= n < |states| && states[m].childCanceled
    ensures states[n].childCanceled && (MayGo(states[n]) ==> MayGo(states[m]))
  {
    hide MayGo; hide Can; hide Do;
    if m < n {
      StaysCanceled(cfg, states, steps, m, n - 1);
      StepCanceled(cfg, states[n - 1], steps[n - 1]);
    }
  }

  /** After a cancellation at most one more partition is submitted: one that was past its test. */
  lemma OneMoreAtMost(cfg: Config, states: seq<State>, steps: seq<Step>, m: nat, g: nat)
    requires IsRun(cfg, states, steps) && m <= g < |steps| && states[m].childCanceled && steps[g] == Go
    ensures states[m].submitter.AtGo? && forall h :: m <= h < |steps| && steps[h] == Go ==> h == g
  {
    GoLast(cfg, states, steps, m, g);
    forall h | m <= h < |steps| && steps[h] == Go ensures h == g {
      GoLast(cfg, states, steps, m, h);
      if g < h {
        StaysCanceled(cfg, states, steps, g + 1, h);
      } else if h < g {
        StaysCanceled(cfg, states, steps, h + 1, g);
      }
    }
  }

  lemma GoLast(cfg: Config, states: seq<State>, steps: seq<Step>, m: nat, g: nat)
    requires IsRun(cfg, states, steps) && m <= g < |steps| && states[m].childCanceled && steps[g] == Go
    ensures MayGo(states[m]) && MayGo(states[g]) && !MayGo(states[g + 1]) && states[g + 1].childCanceled
  {
    StaysCanceled(cfg, states, steps, m, g);
    assert Can(cfg, states[g], steps[g]) && states[g + 1] == Do(cfg, states[g], steps[g]);
    StepCanceled(cfg, states[g], steps[g]);
  }

  /** At most `parallelism` workers (at least one) run at any time, and none when the call returns. */
  lemma WorkersBounded(cfg: Config, states: seq<State>, steps: seq<Step>, t: nat)
    requires IsRun(cfg, states, steps) && t < |states|
    ensures Running(states[t].workers) <= if cfg.parallelism < 1 then 1 else cfg.parallelism
    ensures states[t].consumer.Returned? ==> forall i :: 0 <= i < |states[t].workers| ==>
      !IsRunning(states[t].workers[i])
  {
    RunInv(cfg, states, steps, t);
  }

  // ---- Metadata ----

  /** A row that arrived with or after its partition's metadata. */
  predicate Reported(cfg: Config, item: Item) {
    item.Row? && item.part < |cfg.parts| && HasReported(cfg, item.part, item.index)
  }

  /** Whatever a partition reported by the time of a row is captured before the row is sent. */
  ghost predicate MetaInv(cfg: Config, s: State) {
    && |s.workers| == |cfg.parts|
    && (forall i :: 0 <= i < |s.workers| && s.workers[i].Sending? && Reported(cfg, s.workers[i].item) ==> s.captured)
    && (forall k :: 0 <= k < |s.handed| && Reported(cfg, s.handed[k]) ==> s.captured)
    && (s.handed == [] && !s.consumer.WaitFirst? ==> s.submitter.Closed?)
    && (s.handed != [] && s.metadata.Some? && Reported(cfg, s.handed[0]) ==> s.metadata == Some(true))
    && (s.handed != [] && s.handed[0].Failure? ==> |s.handed| == 1)
  }

  lemma FirstFailure(items: seq<Item>)
    ensures items != [] && items[0].Failure? ==> AnyFailure(items)
  {
  }

  lemma HandoffMeta(cfg: Config, s: State, i: nat)
    requires SubmitInv(cfg, s) && ControlInv(cfg, s) && MetaInv(cfg, s) && Can(cfg, s, Handoff(i))
    ensures MetaInv(cfg, Do(cfg, s, Handoff(i)))
  {
    FirstFailure(s.handed);
    hide Complete; hide Succeeds; hide Running; hide AnyFailure; hide HasReported; hide Fetched;
  }

  lemma StepMeta(cfg: Config, s: State, step: Step)
    requires SubmitInv(cfg, s) && ControlInv(cfg, s) && MetaInv(cfg, s) && Can(cfg, s, step)
    ensures MetaInv(cfg, Do(cfg, s, step))
  {
    hide Complete; hide Succeeds; hide Running; hide AnyFailure;
    if step.Handoff? {
      HandoffMeta(cfg, s, step.i);
    }
  }

  lemma {:induction false} RunMeta(cfg: Config, states: seq<State>, steps: seq<Step>, t: nat)
    requires IsRun(cfg, states, steps) && t < |states|
    ensures MetaInv(cfg, states[t])
  {
    if t > 0 {
      RunMeta(cfg, states, steps, t - 1);
      RunInv(cfg, states, steps, t - 1);
      StepMeta(cfg, states[t - 1], steps[t - 1]);
    }
  }

  /** If partitions with rows report metadata with their first response, consume is given metadata
      before it sees a row: a row received earlier waits until the metadata is loaded. */
  lemma MetadataBeforeRows(cfg: Config, states: seq<State>, steps: seq<Step>, t: nat, k: nat)
    requires IsRun(cfg, states, steps) && t < |states| && k < |states[t].handed|
    requires forall i :: 0 <= i < |cfg.parts| && cfg.parts[i].rows > 0 ==> HasReported(cfg, i, 0)
    requires states[t].handed[k].Row?
    ensures states[t].captured && (states[t].metadata == Some(true) || states[t].consumer.Loading?)
  {
    RunMeta(cfg, states, steps, t);
    RunShape(cfg, states, steps, t);
    RunInv(cfg, states, steps, t);
    assert Genuine(cfg, states[t].handed[0]) && Genuine(cfg, states[t].handed[k]);
  }

  lemma BothRunning(cfg: Config) returns (states: seq<State>, steps: seq<Step>)
    requires |cfg.parts| == 2 && cfg.parallelism == 2
    ensures IsRun(cfg, states, steps) && steps == [Loop, Go, Loop, Go]
    ensures states[4] == Init(cfg).(workers := [Fetching(0), Fetching(0)], submitter := AtLoop(2))
  {
    var s0 := Init(cfg);
    RunningZero(s0.workers);
    var s1 := Do(cfg, s0, Loop);
    RunningUpdate(s1.workers, 0, Fetching(0));
    hide Running;
    var s2 := Do(cfg, s1, Go);
    var s3 := Do(cfg, s2, Loop);
    var s4 := Do(cfg, s3, Go);
    states, steps := [s0, s1, s2, s3, s4], [Loop, Go, Loop, Go];
  }

  /** A run goes on with any enabled step. */
  lemma Extend(cfg: Config, states: seq<State>, steps: seq<Step>, step: Step) returns (more: seq<State>, all: seq<Step>)
    requires IsRun(cfg, states, steps) && Can(cfg, states[|steps|], step)
    ensures IsRun(cfg, more, all) && all == steps + [step] && more[|all|] == Do(cfg, states[|steps|], step)
  {
    hide Can; hide Do;
    more, all := states + [Do(cfg, states[|steps|], step)], steps + [step];
    forall t | 0 <= t < |all| ensures Can(cfg, more[t], all[t]) && more[t + 1] == Do(cfg, more[t], all[t]) {
      if t < |steps| {
        assert Can(cfg, states[t], steps[t]) && states[t + 1] == Do(cfg, states[t], steps[t]);
      }
    }
  }

  /** consume loads the metadata and only then partition 1 reports. */
  lemma ReportTooLate(cfg: Config, states: seq<State>, steps: seq<Step>) returns (more: seq<State>, all: seq<Step>)
    requires IsRun(cfg, states, steps) && |cfg.parts| == 2 && HasReported(cfg, 1, 0)
    requires var s := states[|steps|];
             s.consumer.Loading? && !s.captured && |s.workers| == 2 && s.workers[1] == Fetching(0)
    ensures IsRun(cfg, more, all) && all == steps + [Load, Fetch(1)]
    ensures var s, s' := states[|steps|], more[|all|];
            s'.metadata == Some(false) && s'.captured && s'.handed == s.handed
  {
    hide IsRun; hide Running; hide Succeeds; hide Shown; hide Fetched;
    more, all := Extend(cfg, states, steps, Load);
    more, all := Extend(cfg, more, all, Fetch(1));
  }

  /** The metadata can be missing although a partition reports it: when the first item is the
      failure of another partition. The run below captures it too late. */
  lemma MetadataCanBeMissed() returns (cfg: Config, states: seq<State>, steps: seq<Step>)
    ensures IsRun(cfg, states, steps) && |cfg.parts| == 2 && HasReported(cfg, 1, 0)
    ensures steps == [Loop, Go, Loop, Go, Fetch(0), Handoff(0), Load, Fetch(1)]
    ensures var s := states[|steps|]; s.metadata == Some(false) && s.captured && s.handed == [Failure(0, 0, false)]
  {
    cfg := Config([Partition(0, Some(false), None), Partition(1, None, Some(0))], 2);
    states, steps := BothRunning(cfg);
    hide IsRun; hide Running; hide Succeeds;
    states, steps := Extend(cfg, states, steps, Fetch(0));
    states, steps := Extend(cfg, states, steps, Handoff(0));
    hide Do; hide Can;
    states, steps := ReportTooLate(cfg, states, steps);
  }

  /** It can be missing even if every partition reports with its first response: a fetch cut off
      before that response fails without metadata, and its failure may come first. */
  lemma MetadataMissedOnCancel() returns (cfg: Config, states: seq<State>, steps: seq<Step>)
    ensures IsRun(cfg, states, steps) && |cfg.parts| == 2 && HasReported(cfg, 0, 0) && HasReported(cfg, 1, 0)
    ensures steps == [Loop, Go, Loop, Go, CancelParent, FetchCanceled(0, false), Handoff(0), Load, Fetch(1)]
    ensures var s := states[|steps|]; s.metadata == Some(false) && s.captured && s.handed == [Failure(0, 0, true)]
  {
    cfg := Config([Partition(1, None, Some(0)), Partition(1, None, Some(0))], 2);
    states, steps := BothRunning(cfg);
    hide IsRun; hide Running; hide Succeeds;
    states, steps := Extend(cfg, states, steps, CancelParent);
    states, steps := Extend(cfg, states, steps, FetchCanceled(0, false));
    states, steps := Extend(cfg, states, steps, Handoff(0));
    hide Do; hide Can;
    states, steps := ReportTooLate(cfg, states, steps);
  }

  // ---- Liveness: no deadlock, and every step brings the end nearer ----

  /** Rows a worker sends are rows its partition has. */
  ghost predicate ShapeInv(cfg: Config, s: State) {
    && |s.workers| == |cfg.parts|
    && (forall i :: 0 <= i < |s.workers| && s.workers[i].Sending? ==>
      s.workers[i].item.part == i && Genuine(cfg, s.workers[i].item))
    && (forall k :: 0 <= k < |s.handed| ==> Genuine(cfg, s.handed[k]))
  }

  predicate Genuine(cfg: Config, item: Item) {
    item.part < |cfg.parts| && (item.Row? ==> item.index < cfg.parts[item.part].rows)
  }

  lemma StepShape(cfg: Config, s: State, step: Step)
    requires ShapeInv(cfg, s) && Can(cfg, s, step)
    ensures ShapeInv(cfg, Do(cfg, s, step))
  {
    hide Succeeds; hide Running; hide HasReported; hide Shown; hide AfterReceive; hide AnyFailure;
    if !step.Handoff? {
      hide AfterSend;
    }
  }

  lemma {:induction false} RunShape(cfg: Config, states: seq<State>, steps: seq<Step>, t: nat)
    requires IsRun(cfg, states, steps) && t < |states|
    ensures ShapeInv(cfg, states[t])
  {
    if t > 0 {
      RunShape(cfg, states, steps, t - 1);
      assert Can(cfg, states[t - 1], steps[t - 1]) && states[t] == Do(cfg, states[t - 1], steps[t - 1]);
      StepShape(cfg, states[t - 1], steps[t - 1]);
    }
  }

  /** Every reachable state in which the call has not returned has an enabled step that does not
      depend on an outside cancellation. */
  lemma NoDeadlock(cfg: Config, states: seq<State>, steps: seq<Step>, t: nat) returns (step: Step)
    requires IsRun(cfg, states, steps) && t < |states| && !states[t].consumer.Returned?
    ensures step != CancelParent && Can(cfg, states[t], step)
  {
    var s := states[t];
    RunInv(cfg, states, steps, t);
    step := Return(true);
    if s.consumer.Loading? {
      step := Load;
    } else if s.consumer.AwaitProducers? {
      step := Finish;
    } else if Receives(s.consumer) {
      if i :| 0 <= i < |s.workers| && s.workers[i].Sending? {
        step := Handoff(i);
      } else if i :| 0 <= i < |s.workers| && s.workers[i].Fetching? {
        step := Fetch(i);
      } else {
        RunningZero(s.workers);
        step := match s.submitter
          case AtLoop(_) => Loop
          case AtGo(_) => Go
          case Waiting => Wait
          case Posted => Close
          case Closed => SeeClosed;
      }
    }
  }

  function WorkerWeight(part: Partition, w: Worker): nat {
    match w
    case Idle => 2 * part.rows + 4
    case Fetching(k) => if k <= part.rows then 2 * (part.rows - k) + 3 else 3
    case Sending(Row(_, k)) => if k <= part.rows then 2 * (part.rows - k) + 2 else 2
    case Sending(Failure(_, _, _)) => 1
    case Done(_) => 0
  }

  function WorkersWeight(parts: seq<Partition>, ws: seq<Worker>): nat
    requires |parts| == |ws|
  {
    if ws == [] then 0
    else WorkersWeight(parts[..|ws| - 1], ws[..|ws| - 1]) + WorkerWeight(parts[|ws| - 1], ws[|ws| - 1])
  }

  lemma {:induction false} WeightUpdate(parts: seq<Partition>, ws: seq<Worker>, i: nat, w: Worker)
    requires |parts| == |ws| && i < |ws|
    ensures WorkersWeight(parts, ws[i := w])
         == WorkersWeight(parts, ws) - WorkerWeight(parts[i], ws[i]) + WorkerWeight(parts[i], w)
  {
    var n := |ws| - 1;
    if i == n {
      assert ws[i := w][..n] == ws[..n];
    } else {
      WeightUpdate(parts[..n], ws[..n], i, w);
      assert ws[i := w][..n] == ws[..n][i := w];
    }
  }

  function SubmitterWeight(n: nat, b: Submitter): nat {
    match b
    case AtLoop(k) => if k <= n then 2 * (n - k) + 3 else 3
    case AtGo(k) => if k <= n then 2 * (n - k) + 2 else 2
    case Waiting => 2
    case Posted => 1
    case Closed => 0
  }

  function ConsumerWeight(c: Consumer): nat {
    match c
    case WaitFirst => 9
    case Loading(_) => 8
    case Deciding(first) => if first.Some? then 7 else 6
    case Reading => 5
    case Ended => 4
    case Draining => 3
    case AwaitProducers => 1
    case Returned(_) => 0
  }

  /** Falls with every step of every process. */
  function Measure(cfg: Config, s: State): nat
    requires |s.workers| == |cfg.parts|
  {
    2 * WorkersWeight(cfg.parts, s.workers) + SubmitterWeight(|s.workers|, s.submitter)
    + ConsumerWeight(s.consumer) + if s.parentCanceled then 0 else 1
  }

  /** The worker concerned gets lighter, by one at least; a receive costs the consumer at most one. */
  lemma WorkerProgresses(cfg: Config, s: State, step: Step)
    requires ShapeInv(cfg, s) && IsWorkerStep(step) && Can(cfg, s, step)
    ensures var s' := Do(cfg, s, step); |s'.workers| == |cfg.parts| && Measure(cfg, s') < Measure(cfg, s)
  {
    var i := step.i;
    var w := Do(cfg, s, step).workers[i];
    WeightUpdate(cfg.parts, s.workers, i, w);
    hide WorkersWeight;
    if s.workers[i].Sending? {
      assert Genuine(cfg, s.workers[i].item);
    }
    assert WorkerWeight(cfg.parts[i], w) < WorkerWeight(cfg.parts[i], s.workers[i]);
  }

  lemma GoProgresses(cfg: Config, s: State)
    requires |s.workers| == |cfg.parts| && Can(cfg, s, Go) && s.workers[s.submitter.next].Idle?
    ensures var s' := Do(cfg, s, Go); |s'.workers| == |cfg.parts| && Measure(cfg, s') < Measure(cfg, s)
  {
    WeightUpdate(cfg.parts, s.workers, s.submitter.next, Fetching(0));
    hide WorkersWeight;
  }

  lemma ControlProgresses(cfg: Config, s: State, step: Step)
    requires |s.workers| == |cfg.parts| && Can(cfg, s, step) && !IsWorkerStep(step) && !step.Go?
    ensures var s' := Do(cfg, s, step); |s'.workers| == |cfg.parts| && Measure(cfg, s') < Measure(cfg, s)
  {
    hide WorkersWeight; hide Succeeds; hide Running; hide Fetched; hide HasReported; hide WorkerWeight;
    assert !step.Fetch? && !step.FetchCanceled? && !step.Handoff? && !step.Abandon?;
    match step
    case CancelParent =>
    case Loop =>
    case Wait =>
    case Close =>
    case SeeClosed =>
    case Load =>
    case YieldFirst =>
    case Ask =>
    case Return(_) =>
    case Finish =>
  }

  lemma EveryStepProgresses(cfg: Config, states: seq<State>, steps: seq<Step>, t: nat)
    requires IsRun(cfg, states, steps) && t < |steps|
    ensures |states[t].workers| == |cfg.parts| && |states[t + 1].workers| == |cfg.parts|
    ensures Measure(cfg, states[t + 1]) < Measure(cfg, states[t])
  {
    var s, step := states[t], steps[t];
    RunShape(cfg, states, steps, t);
    RunInv(cfg, states, steps, t);
    assert Can(cfg, s, step) && states[t + 1] == Do(cfg, s, step);
    hide Measure; hide Do; hide Can;
    if IsWorkerStep(step) {
      WorkerProgresses(cfg, s, step);
    } else if step.Go? {
      GoIsIdle(cfg, s);
      GoProgresses(cfg, s);
    } else {
      ControlProgresses(cfg, s, step);
    }
  }

  lemma GoIsIdle(cfg: Config, s: State)
    requires SubmitInv(cfg, s) && Can(cfg, s, Go)
    ensures s.submitter.AtGo? && s.submitter.next < |s.workers| && s.workers[s.submitter.next].Idle?
  {
  }

  /** So no run is longer than the initial measure. */
  lemma {:induction false} RunsAreFinite(cfg: Config, states: seq<State>, steps: seq<Step>, t: nat)
    requires IsRun(cfg, states, steps) && t <= |steps|
    ensures |states[t].workers| == |cfg.parts| && t + Measure(cfg, states[t]) <= Measure(cfg, Init(cfg))
  {
    RunShape(cfg, states, steps, t);
    if t > 0 {
      RunsAreFinite(cfg, states, steps, t - 1);
      EveryStepProgresses(cfg, states, steps, t - 1);
    }
  }
}
