/** When a fan-in consumer can be told that no metadata exists although some partition reports it:
    the documented promise of runPartitionedRowSeq (internal/mycli/execute_partitioned.go:190-194)
    and exactly when it is kept, with and without a cancellation from outside. */
module FanInMetadata {
  import opened TableIds
  import opened FanIn

  ghost predicate Reaches(cfg: Config, s: State) {
    exists states, steps :: IsRun(cfg, states, steps) && states[|steps|] == s
  }

  /** consume was given no metadata, yet a partition reported some. */
  predicate Missed(s: State) {
    s.metadata == Some(false) && s.captured
  }

  ghost predicate NeverMissed(cfg: Config) {
    forall s :: Reaches(cfg, s) ==> !Missed(s)
  }

  /** The same for runs that nobody cancels from outside. */
  ghost predicate NeverMissedUncanceled(cfg: Config) {
    forall s :: Reaches(cfg, s) && !s.parentCanceled ==> !Missed(s)
  }

  /** A partition from which something is received unless it is cut off: a row or a failure. */
  predicate Speaks(part: Partition) {
    part.rows > 0 || part.failure.Some?
  }

  /** Every partition that sends anything reports with its first response. */
  predicate SpeakersPrompt(cfg: Config) {
    forall i :: 0 <= i < |cfg.parts| && Speaks(cfg.parts[i]) ==> HasReported(cfg, i, 0)
  }

  /** There is at most one partition, and it reports with its first response. */
  predicate OnePrompt(cfg: Config) {
    |cfg.parts| <= 1 && forall i :: 0 <= i < |cfg.parts| ==> HasReported(cfg, i, 0)
  }

  predicate CanReport(cfg: Config, j: nat)
    requires j < |cfg.parts|
  {
    HasReported(cfg, j, cfg.parts[j].rows)
  }

  /** No partition reports with any response it gives. */
  predicate NoneReports(cfg: Config) {
    forall j :: 0 <= j < |cfg.parts| ==> !CanReport(cfg, j)
  }

  lemma ReachInit(cfg: Config)
    ensures Reaches(cfg, Init(cfg))
  {
    var none: seq<Step> := [];
    assert IsRun(cfg, [Init(cfg)], none) && [Init(cfg)][|none|] == Init(cfg);
  }

  lemma ReachStep(cfg: Config, s: State, step: Step)
    requires Reaches(cfg, s) && Can(cfg, s, step)
    ensures Reaches(cfg, Do(cfg, s, step))
  {
    hide Can; hide Do;
    var states, steps :| IsRun(cfg, states, steps) && states[|steps|] == s;
    var more, all := Extend(cfg, states, steps, step);
  }

  // ---- Kept ----

  /** No fetch goes beyond the partition's last, and nothing is captured that no partition reports. */
  ghost predicate FetchInv(cfg: Config, s: State) {
    && |s.workers| == |cfg.parts|
    && (forall i :: 0 <= i < |s.workers| && s.workers[i].Fetching? ==> s.workers[i].next <= cfg.parts[i].rows)
    && (NoneReports(cfg) ==> !s.captured)
  }

  /** If nothing was received, everything is over when the metadata is loaded. */
  ghost predicate SilentInv(s: State) {
    s.handed == [] && s.metadata.Some? ==> s.metadata == Some(s.captured) && s.submitter.Closed?
  }

  /** Without cancellation, prompt speakers capture before anything of theirs is received. */
  ghost predicate PromptInv(cfg: Config, s: State) {
    SpeakersPrompt(cfg) && !s.parentCanceled ==>
      && (!Past(s.consumer) ==> forall i :: 0 <= i < |s.workers| && s.workers[i].Sending? ==> s.captured)
      && (s.handed != [] ==> s.captured && s.metadata != Some(false))
  }

  predicate AllDone(ws: seq<Worker>) {
    forall i :: 0 <= i < |ws| ==> ws[i].Done?
  }

  /** A single prompt partition that fails before its report is finished when that is received. */
  ghost predicate SingleInv(cfg: Config, s: State) {
    OnePrompt(cfg) && s.handed != [] ==> if s.captured then s.metadata != Some(false) else AllDone(s.workers)
  }

  /** Until its report, a single prompt partition sends nothing but a failure. */
  ghost predicate QuietInv(cfg: Config, s: State) {
    OnePrompt(cfg) && !s.captured ==>
      forall i :: 0 <= i < |s.workers| && s.workers[i].Sending? ==> s.workers[i].item.Failure?
  }

  lemma FetchStep(cfg: Config, s: State, step: Step)
    requires ShapeInv(cfg, s) && FetchInv(cfg, s) && Can(cfg, s, step)
    ensures FetchInv(cfg, Do(cfg, s, step))
  {
    hide Succeeds; hide Running;
    if step.Fetch? || step.FetchCanceled? {
      var k := s.workers[step.i].next;
      assert HasReported(cfg, step.i, k) ==> CanReport(cfg, step.i);
    }
  }

  lemma SilentStep(cfg: Config, s: State, step: Step)
    requires SubmitInv(cfg, s) && ControlInv(cfg, s) && MetaInv(cfg, s) && SilentInv(s) && Can(cfg, s, step)
    ensures SilentInv(Do(cfg, s, step))
  {
    hide Succeeds; hide AnyFailure; hide Running; hide Complete; hide HasReported; hide Fetched;
  }

  lemma PromptStep(cfg: Config, s: State, step: Step)
    requires SubmitInv(cfg, s) && ControlInv(cfg, s) && MetaInv(cfg, s) && PromptInv(cfg, s) && Can(cfg, s, step)
    ensures PromptInv(cfg, Do(cfg, s, step))
  {
    hide Succeeds; hide AnyFailure; hide Running; hide Complete;
    if step.Fetch? {
      assert SpeakersPrompt(cfg) && Speaks(cfg.parts[step.i]) ==> HasReported(cfg, step.i, 0);
    }
  }

  lemma SingleStep(cfg: Config, s: State, step: Step)
    requires SubmitInv(cfg, s) && ControlInv(cfg, s) && MetaInv(cfg, s) && QuietInv(cfg, s) && SingleInv(cfg, s)
      && Can(cfg, s, step)
    ensures SingleInv(cfg, Do(cfg, s, step))
  {
    hide Succeeds; hide AnyFailure; hide Running; hide Complete; hide HasReported; hide Fetched;
    if step.Go? {
      assert s.workers[s.submitter.next].Idle?;
    }
  }

  lemma QuietStep(cfg: Config, s: State, step: Step)
    requires |s.workers| == |cfg.parts| && QuietInv(cfg, s) && Can(cfg, s, step)
    ensures QuietInv(cfg, Do(cfg, s, step))
  {
    hide Succeeds; hide AnyFailure; hide Running;
    if step.Fetch? {
      assert OnePrompt(cfg) ==> HasReported(cfg, step.i, 0);
    }
  }

  ghost predicate ToldInv(cfg: Config, s: State) {
    FetchInv(cfg, s) && SilentInv(s) && PromptInv(cfg, s) && QuietInv(cfg, s) && SingleInv(cfg, s)
  }

  lemma ToldStep(cfg: Config, s: State, step: Step)
    requires Inv(cfg, s) && ShapeInv(cfg, s) && MetaInv(cfg, s) && ToldInv(cfg, s) && Can(cfg, s, step)
    ensures ToldInv(cfg, Do(cfg, s, step))
  {
    hide Do; hide Can; hide SubmitInv; hide ControlInv; hide TrackInv; hide MetaInv;
    hide SilentInv; hide PromptInv; hide QuietInv; hide SingleInv;
    FetchStep(cfg, s, step);
    SilentStep(cfg, s, step);
    PromptStep(cfg, s, step);
    QuietStep(cfg, s, step);
    SingleStep(cfg, s, step);
  }

  lemma {:induction false} ToldRun(cfg: Config, states: seq<State>, steps: seq<Step>, t: nat)
    requires IsRun(cfg, states, steps) && t <= |steps|
    ensures ToldInv(cfg, states[t])
  {
    hide Do; hide Can; hide ToldInv; hide Inv; hide ShapeInv; hide MetaInv;
    if t == 0 {
      ToldFirst(cfg);
    } else {
      ToldRun(cfg, states, steps, t - 1);
      RunInv(cfg, states, steps, t - 1);
      RunShape(cfg, states, steps, t - 1);
      RunMeta(cfg, states, steps, t - 1);
      assert Can(cfg, states[t - 1], steps[t - 1]);
      ToldStep(cfg, states[t - 1], steps[t - 1]);
    }
  }

  lemma ToldFirst(cfg: Config)
    ensures ToldInv(cfg, Init(cfg))
  {
  }

  /** Whatever the parallelism: the promise is kept if no partition reports at all, if the only
      partition reports with its first response, and in runs nobody cancels if every partition that
      sends anything does. */
  lemma KeptPromise(cfg: Config, s: State)
    requires Reaches(cfg, s)
    requires NoneReports(cfg) || OnePrompt(cfg) || (SpeakersPrompt(cfg) && !s.parentCanceled)
    ensures !Missed(s)
  {
    hide Do; hide Can; hide NoneReports; hide OnePrompt; hide SpeakersPrompt;
    var states, steps :| IsRun(cfg, states, steps) && states[|steps|] == s;
    ToldRun(cfg, states, steps, |steps|);
  }

  // ---- Broken ----

  /** n workers just started, the others not, nothing handed over. */
  function Started(cfg: Config, n: nat): State
    requires n <= |cfg.parts|
  {
    Init(cfg).(workers := seq(|cfg.parts|, k => if k < n then Fetching(0) else Idle), submitter := AtLoop(n))
  }

  lemma {:induction false} RunningAtMost(ws: seq<Worker>, n: nat)
    requires n <= |ws| && forall k :: n <= k < |ws| ==> !IsRunning(ws[k])
    ensures Running(ws) <= n
  {
    if |ws| > 0 {
      RunningAtMost(ws[..|ws| - 1], if n == |ws| then n - 1 else n);
    }
  }

  lemma {:induction false} StartAll(cfg: Config, n: nat)
    requires n <= |cfg.parts| && n <= Limit(cfg)
    ensures Reaches(cfg, Started(cfg, n))
  {
    if n == 0 {
      ReachInit(cfg);
      assert Started(cfg, 0).workers == Init(cfg).workers;
    } else {
      StartAll(cfg, n - 1);
      hide Reaches;
      var s := Started(cfg, n - 1);
      ReachStep(cfg, s, Loop);
      var ready := Do(cfg, s, Loop);
      RunningAtMost(ready.workers, n - 1);
      hide Running;
      ReachStep(cfg, ready, Go);
      assert Do(cfg, ready, Go).workers == Started(cfg, n).workers;
    }
  }

  /** consume was told there is no metadata; it reads on, and partition j is about to fetch again. */
  predicate ReadsOn(cfg: Config, s: State, j: nat, k: nat) {
    && j < |cfg.parts| && |s.workers| == |cfg.parts| && s.workers[j] == Fetching(k) && k <= cfg.parts[j].rows
    && s.consumer.Reading? && s.metadata == Some(false) && !s.parentCanceled
  }

  /** Reading on, consume takes j's rows until j reports. */
  lemma {:induction false} ReportsLate(cfg: Config, s: State, j: nat, k: nat)
    requires Reaches(cfg, s) && ReadsOn(cfg, s, j, k) && CanReport(cfg, j)
    ensures !NeverMissedUncanceled(cfg)
    decreases cfg.parts[j].rows - k
  {
    hide Reaches; hide Running; hide Succeeds;
    ReachStep(cfg, s, Fetch(j));
    var fetched := Do(cfg, s, Fetch(j));
    if HasReported(cfg, j, k) {
      assert Missed(fetched) && !fetched.parentCanceled;
    } else {
      ReachStep(cfg, fetched, Handoff(j));
      var taken := Do(cfg, fetched, Handoff(j));
      ReachStep(cfg, taken, Ask);
      ReportsLate(cfg, Do(cfg, taken, Ask), j, k + 1);
    }
  }

  /** A partition that reports with a later response breaks the promise alone: its own first row
      arrives without metadata. */
  lemma OwnRowFirst(cfg: Config, j: nat)
    requires j < |cfg.parts| && j < Limit(cfg) && CanReport(cfg, j) && !HasReported(cfg, j, 0)
    ensures !NeverMissedUncanceled(cfg)
  {
    hide NeverMissedUncanceled; hide Reaches; hide Running; hide Succeeds;
    StartAll(cfg, j + 1);
    var s := Started(cfg, j + 1);
    ReachStep(cfg, s, Fetch(j));
    var sent := Do(cfg, s, Fetch(j));
    ReachStep(cfg, sent, Handoff(j));
    hide HasReported;
    var taken := ReadOn(cfg, Do(cfg, sent, Handoff(j)), j);
    ReportsLate(cfg, taken, j, 1);
  }

  /** After the first row: load, yield it, ask for more. */
  lemma ReadOn(cfg: Config, s: State, j: nat) returns (r: State)
    requires Reaches(cfg, s) && s.consumer == Loading(Some(Row(j, 0))) && !s.captured && !s.parentCanceled
    requires |s.workers| == |cfg.parts| && j < |cfg.parts| && s.workers[j] == Fetching(1) && 1 <= cfg.parts[j].rows
    ensures Reaches(cfg, r) && ReadsOn(cfg, r, j, 1)
  {
    hide Reaches; hide Running; hide Succeeds;
    ReachStep(cfg, s, Load);
    var loaded := Do(cfg, s, Load);
    ReachStep(cfg, loaded, YieldFirst);
    var yielded := Do(cfg, loaded, YieldFirst);
    ReachStep(cfg, yielded, Ask);
    r := Do(cfg, yielded, Ask);
  }

  /** Both workers run; i's item is received and the metadata loaded before j's first response. */
  lemma OtherFirst(cfg: Config, s: State, i: nat, j: nat)
    requires Reaches(cfg, s) && i != j && i < |cfg.parts| && j < |cfg.parts| && |s.workers| == |cfg.parts|
    requires s.workers[i].Sending? && s.workers[j] == Fetching(0) && s.consumer.WaitFirst? && !s.captured
    requires HasReported(cfg, j, 0)
    ensures !NeverMissed(cfg) && (!s.parentCanceled ==> !NeverMissedUncanceled(cfg))
  {
    hide Reaches; hide Running; hide Succeeds; hide HasReported;
    ReachStep(cfg, s, Handoff(i));
    var taken := Do(cfg, s, Handoff(i));
    ReachStep(cfg, taken, Load);
    var loaded := Do(cfg, taken, Load);
    ReachStep(cfg, loaded, Fetch(j));
    var late := Do(cfg, loaded, Fetch(j));
    assert Missed(late) && late.parentCanceled == s.parentCanceled;
  }

  function Max(i: nat, j: nat): nat {
    if i < j then j else i
  }

  /** Another partition that speaks without having reported breaks it without any cancellation. */
  lemma SpeakerFirst(cfg: Config, i: nat, j: nat)
    requires i < |cfg.parts| && j < |cfg.parts| && Max(i, j) < Limit(cfg)
    requires Speaks(cfg.parts[i]) && !HasReported(cfg, i, 0) && HasReported(cfg, j, 0)
    ensures !NeverMissedUncanceled(cfg)
  {
    var n := Max(i, j) + 1;
    StartAll(cfg, n);
    hide Reaches; hide NeverMissedUncanceled; hide NeverMissed; hide Running; hide Succeeds;
    var s := Started(cfg, n);
    ReachStep(cfg, s, Fetch(i));
    OtherFirst(cfg, Do(cfg, s, Fetch(i)), i, j);
  }

  /** With a cancellation any other partition does: it is cut off before its first response. */
  lemma CutOffFirst(cfg: Config, i: nat, j: nat)
    requires i != j && i < |cfg.parts| && j < |cfg.parts| && Max(i, j) < Limit(cfg) && HasReported(cfg, j, 0)
    ensures !NeverMissed(cfg)
  {
    var n := Max(i, j) + 1;
    StartAll(cfg, n);
    hide Reaches; hide NeverMissedUncanceled; hide NeverMissed; hide Running; hide Succeeds; hide HasReported;
    var s := Started(cfg, n);
    ReachStep(cfg, s, CancelParent);
    var canceled := Do(cfg, s, CancelParent);
    ReachStep(cfg, canceled, FetchCanceled(i, false));
    OtherFirst(cfg, Do(cfg, canceled, FetchCanceled(i, false)), i, j);
  }

  lemma ReportsAtOnce(cfg: Config, j: nat)
    requires j < |cfg.parts| <= Limit(cfg) && CanReport(cfg, j) && NeverMissedUncanceled(cfg)
    ensures HasReported(cfg, j, 0)
  {
    hide NeverMissedUncanceled; hide HasReported;
    if !HasReported(cfg, j, 0) {
      OwnRowFirst(cfg, j);
    }
  }

  lemma KeptAlways(cfg: Config)
    ensures NoneReports(cfg) || OnePrompt(cfg) ==> NeverMissed(cfg)
    ensures NoneReports(cfg) || SpeakersPrompt(cfg) ==> NeverMissedUncanceled(cfg)
  {
    hide Reaches; hide NoneReports; hide OnePrompt; hide SpeakersPrompt; hide Missed;
    if NoneReports(cfg) || OnePrompt(cfg) {
      forall s | Reaches(cfg, s) ensures !Missed(s) {
        KeptPromise(cfg, s);
      }
    }
    if NoneReports(cfg) || SpeakersPrompt(cfg) {
      forall s | Reaches(cfg, s) && !s.parentCanceled ensures !Missed(s) {
        KeptPromise(cfg, s);
      }
    }
  }

  /** When nobody cancels from outside, the documented promise (metadata is nil only when no
      partition reports any) is kept in every run exactly when no partition reports at all or every
      partition that sends anything reports with its first response. */
  lemma PromiseWithoutCancel(cfg: Config)
    requires |cfg.parts| <= Limit(cfg)
    ensures NeverMissedUncanceled(cfg) <==> NoneReports(cfg) || SpeakersPrompt(cfg)
  {
    hide Reaches; hide Limit;
    KeptAlways(cfg);
    if NeverMissedUncanceled(cfg) && !NoneReports(cfg) && !SpeakersPrompt(cfg) {
      hide NeverMissedUncanceled; hide HasReported; hide Speaks;
      var j: nat :| j < |cfg.parts| && CanReport(cfg, j);
      var i: nat :| i < |cfg.parts| && Speaks(cfg.parts[i]) && !HasReported(cfg, i, 0);
      ReportsAtOnce(cfg, j);
      SpeakerFirst(cfg, i, j);
    }
  }

  /** When a cancellation may come, it is kept exactly when no partition reports at all or the only
      partition reports with its first response. */
  lemma PromiseExactly(cfg: Config)
    requires |cfg.parts| <= Limit(cfg)
    ensures NeverMissed(cfg) <==> NoneReports(cfg) || OnePrompt(cfg)
  {
    hide Reaches; hide Limit;
    KeptAlways(cfg);
    if NeverMissed(cfg) && !NoneReports(cfg) {
      assert NeverMissedUncanceled(cfg);
      hide NeverMissedUncanceled; hide NeverMissed; hide HasReported;
      var j: nat :| j < |cfg.parts| && CanReport(cfg, j);
      ReportsAtOnce(cfg, j);
      if |cfg.parts| > 1 {
        CutOffFirst(cfg, if j == 0 then 1 else 0, j);
      }
    }
  }

  lemma SameParts(cfg: Config, p: int)
    ensures var d := cfg.(parallelism := p);
      (NoneReports(d) <==> NoneReports(cfg)) && (OnePrompt(d) <==> OnePrompt(cfg))
      && (SpeakersPrompt(d) <==> SpeakersPrompt(cfg))
  {
    var d := cfg.(parallelism := p);
    assert forall i :: 0 <= i < |cfg.parts| ==> (CanReport(d, i) <==> CanReport(cfg, i));
    assert forall i :: 0 <= i < |cfg.parts| ==> (HasReported(d, i, 0) <==> HasReported(cfg, i, 0));
  }

  /** For any partitions: these are exactly the conditions under which the promise is kept at
      every parallelism. */
  lemma PromiseAtEveryParallelism(cfg: Config)
    ensures (forall p: int :: NeverMissed(cfg.(parallelism := p))) <==> NoneReports(cfg) || OnePrompt(cfg)
    ensures (forall p: int :: NeverMissedUncanceled(cfg.(parallelism := p))) <==>
      NoneReports(cfg) || SpeakersPrompt(cfg)
  {
    hide NeverMissed; hide NeverMissedUncanceled; hide NoneReports; hide OnePrompt; hide SpeakersPrompt;
    var wide := cfg.(parallelism := |cfg.parts|);
    SameParts(cfg, |cfg.parts|);
    PromiseExactly(wide);
    PromiseWithoutCancel(wide);
    forall p: int
      ensures NoneReports(cfg) || OnePrompt(cfg) ==> NeverMissed(cfg.(parallelism := p))
      ensures NoneReports(cfg) || SpeakersPrompt(cfg) ==> NeverMissedUncanceled(cfg.(parallelism := p))
    {
      SameParts(cfg, p);
      KeptAlways(cfg.(parallelism := p));
    }
  }
}
