/** The query retry loop (internal/mycli/execute_sql.go:360-418) and the counter between it and
    the caller's writer (internal/mycli/explicit_abort_retry.go:33-67): a statement that was
    aborted runs again only while nothing of it has been shown. */
module QueryRetry {
  /** What one attempt does with its output: hand bytes to the writer, which takes some of
      them, or present something. */
  datatype Output = Write(bytes: string, accepts: nat) | Present

  /** One execution: it fails at once, or produces output and then fails or succeeds.
      `eligible`: the error is an abort of the current owner's attempt with retry on.
      `recovers`: reconstruction and replay would succeed. */
  datatype Attempt = Attempt(runFails: bool, outputs: seq<Output>, collectFails: bool, eligible: bool, recovers: bool)

  function Taken(o: Output): string {
    match o
    case Write(bytes, accepts) => if accepts < |bytes| then bytes[..accepts] else bytes
    case Present => ""
  }

  function Accepted(outputs: seq<Output>): string {
    if outputs == [] then "" else Accepted(outputs[..|outputs| - 1]) + Taken(outputs[|outputs| - 1])
  }

  predicate Presents(outputs: seq<Output>) {
    exists i :: 0 <= i < |outputs| && outputs[i].Present?
  }

  /** What an attempt shows; an attempt whose run fails produces nothing. */
  function Shown(a: Attempt): string {
    if a.runFails then "" else Accepted(a.outputs)
  }

  predicate Delivers(a: Attempt, hasWriter: bool) {
    !a.runFails && ((hasWriter && Accepted(a.outputs) != "") || Presents(a.outputs))
  }

  predicate Retried(a: Attempt, hasWriter: bool) {
    (a.runFails || a.collectFails) && a.eligible && !Delivers(a, hasWriter) && a.recovers
  }

  /** How many attempts start. */
  function Started(attempts: seq<Attempt>, hasWriter: bool): (n: nat)
    ensures n <= |attempts| && (attempts != [] ==> n > 0)
  {
    if attempts == [] then 0
    else if Retried(attempts[0], hasWriter) then 1 + Started(attempts[1..], hasWriter) else 1
  }

  /** Everything the started attempts show, in order. */
  function AllShown(attempts: seq<Attempt>): string {
    if attempts == [] then "" else Shown(attempts[0]) + AllShown(attempts[1..])
  }

  lemma ShowsNothing(a: Attempt)
    requires !Delivers(a, true)
    ensures Shown(a) == ""
  {
  }

  /** The writer gets the output of the last started attempt and nothing of any earlier one. */
  lemma {:induction false} OneAttemptShows(attempts: seq<Attempt>)
    requires attempts != []
    ensures var n := Started(attempts, true);
      && AllShown(attempts[..n]) == Shown(attempts[n - 1])
      && forall k :: 0 <= k < n - 1 ==> Shown(attempts[k]) == "" && !Delivers(attempts[k], true)
  {
    hide Shown;
    var n := Started(attempts, true);
    assert attempts[..n][0] == attempts[0];
    if Retried(attempts[0], true) {
      ShowsNothing(attempts[0]);
    }
    hide Retried;
    hide Delivers;
    if n > 1 {
      OneAttemptShows(attempts[1..]);
      assert attempts[..n][1..] == attempts[1..][..n - 1];
      forall k | 0 <= k < n - 1 ensures Shown(attempts[k]) == "" && !Delivers(attempts[k], true) {
        if k > 0 {
          assert attempts[k] == attempts[1..][k - 1];
        }
      }
    } else {
      assert attempts[..n][1..] == [];
      assert Shown(attempts[0]) + "" == Shown(attempts[0]);
    }
  }

  /** The attempt handed no byte to the writer and presented nothing. */
  predicate ShowedNothing(a: Attempt, hasWriter: bool) {
    a.runFails || forall i :: 0 <= i < |a.outputs| ==>
      match a.outputs[i]
      case Write(bytes, accepts) => !hasWriter || |bytes| == 0 || accepts == 0
      case Present => false
  }

  lemma {:induction false} AcceptedNothing(outputs: seq<Output>)
    ensures Accepted(outputs) == "" <==> forall i :: 0 <= i < |outputs| ==> |Taken(outputs[i])| == 0
  {
    if outputs != [] {
      var n := |outputs| - 1;
      AcceptedNothing(outputs[..n]);
      assert |Accepted(outputs)| == |Accepted(outputs[..n])| + |Taken(outputs[n])|;
      assert forall i :: 0 <= i < n ==> outputs[..n][i] == outputs[i];
      hide Accepted; hide Taken;
    }
  }

  lemma DeliversExactly(a: Attempt, hasWriter: bool)
    ensures Delivers(a, hasWriter) <==> !ShowedNothing(a, hasWriter)
  {
    AcceptedNothing(a.outputs);
    hide Accepted;
  }

  /** The next attempt starts exactly if the last one that started failed with an eligible error before it
      showed anything, and recovery succeeded. */
  lemma {:induction false} StartsExactly(attempts: seq<Attempt>, hasWriter: bool, k: nat)
    requires k + 1 < |attempts|
    ensures k + 1 < Started(attempts, hasWriter) <==>
            && k < Started(attempts, hasWriter)
            && (attempts[k].runFails || attempts[k].collectFails)
            && attempts[k].eligible && ShowedNothing(attempts[k], hasWriter) && attempts[k].recovers
  {
    DeliversExactly(attempts[k], hasWriter);
    hide Delivers; hide ShowedNothing;
    if k > 0 {
      StartsExactly(attempts[1..], hasWriter, k - 1);
      assert attempts[1..][k - 1] == attempts[k];
    }
  }

  /** Once an attempt delivered anything, it is the last. */
  lemma {:induction false} NothingAfterDelivery(attempts: seq<Attempt>, hasWriter: bool, k: nat)
    requires k < Started(attempts, hasWriter) && Delivers(attempts[k], hasWriter)
    ensures Started(attempts, hasWriter) == k + 1
  {
    if k > 0 {
      NothingAfterDelivery(attempts[1..], hasWriter, k - 1);
    }
  }

  class CallerWriter {
    var received: string

    constructor ()
      ensures received == ""
    {
      received := "";
    }

    /** Takes a prefix of what it is given and says how long. */
    method Write(bytes: string, accepts: nat) returns (n: nat)
      modifies this
      ensures n == |Taken(Output.Write(bytes, accepts))|
        && received == old(received) + Taken(Output.Write(bytes, accepts))
    {
      n := if accepts < |bytes| then accepts else |bytes|;
      received := received + bytes[..n];
    }
  }

  class DeliveredByteCounter {
    const writer: CallerWriter?
    var n: nat
    var presented: bool

    constructor (writer: CallerWriter?)
      ensures this.writer == writer && n == 0 && !presented
    {
      this.writer := writer;
      n, presented := 0, false;
    }

    method Write(bytes: string, accepts: nat) returns (written: nat)
      modifies this`n, writer
      ensures writer == null ==> written == |bytes| && n == old(n)
      ensures writer != null ==>
        written == |Taken(Output.Write(bytes, accepts))| && n == old(n) + written
        && writer.received == old(writer.received) + Taken(Output.Write(bytes, accepts))
    {
      if writer == null {
        return |bytes|;
      }
      written := writer.Write(bytes, accepts);
      if written > 0 {
        n := n + written;
      }
    }

    method NotePresented()
      modifies this`presented
      ensures presented
    {
      presented := true;
    }

    predicate Delivered()
      reads this
    {
      n > 0 || presented
    }
  }

  lemma OutputSnoc(outputs: seq<Output>, i: nat, was: string)
    requires i < |outputs|
    ensures was + Accepted(outputs[..i + 1]) == (was + Accepted(outputs[..i])) + Taken(outputs[i])
    ensures |Accepted(outputs[..i + 1])| == |Accepted(outputs[..i])| + |Taken(outputs[i])|
    ensures Presents(outputs[..i + 1]) <==> Presents(outputs[..i]) || outputs[i].Present?
  {
    var shorter, longer := outputs[..i], outputs[..i + 1];
    assert longer[..i] == shorter && longer[i] == outputs[i];
    assert forall k :: 0 <= k < i ==> longer[k] == shorter[k];
  }

  lemma NoOutput(was: string)
    ensures was + Accepted([]) == was && |Accepted([])| == 0 && !Presents([])
  {
  }

  method Produce(counter: DeliveredByteCounter, output: Output)
    modifies counter, counter.writer
    ensures counter.presented <==> old(counter.presented) || output.Present?
    ensures counter.n == old(counter.n) + if counter.writer == null then 0 else |Taken(output)|
    ensures counter.writer != null ==> counter.writer.received == old(counter.writer.received) + Taken(output)
  {
    match output
    case Write(bytes, accepts) =>
      var _ := counter.Write(bytes, accepts);
    case Present =>
      counter.NotePresented();
  }

  /** executeAndCollect: every byte for the caller passes through the counter. */
  method Collect(counter: DeliveredByteCounter, outputs: seq<Output>)
    modifies counter, counter.writer
    ensures counter.presented <==> old(counter.presented) || Presents(outputs)
    ensures counter.n == old(counter.n) + if counter.writer == null then 0 else |Accepted(outputs)|
    ensures counter.writer != null ==> counter.writer.received == old(counter.writer.received) + Accepted(outputs)
  {
    hide Accepted;
    hide Presents;
    hide Taken;
    var i := 0;
    ghost var was := if counter.writer == null then "" else counter.writer.received;
    NoOutput(was);
    assert outputs[..0] == [];
    while i < |outputs|
      invariant 0 <= i <= |outputs|
      invariant counter.presented <==> old(counter.presented) || Presents(outputs[..i])
      invariant counter.n == old(counter.n) + if counter.writer == null then 0 else |Accepted(outputs[..i])|
      invariant counter.writer != null ==> counter.writer.received == was + Accepted(outputs[..i])
    {
      OutputSnoc(outputs, i, was);
      Produce(counter, outputs[i]);
      i := i + 1;
    }
    assert outputs[..|outputs|] == outputs;
  }

  /** tryExplicitAbortRetry as its caller sees it: delivered output rules recovery out. */
  function TryRetry(a: Attempt, delivered: bool): (bool, bool) {
    (a.eligible && !delivered && a.recovers, a.eligible)
  }

  /** How many more attempts start when the first k have. */
  ghost function StartedFrom(attempts: seq<Attempt>, k: nat, hasWriter: bool): nat
    requires k <= |attempts|
  {
    Started(attempts[k..], hasWriter)
  }

  lemma StartedNext(attempts: seq<Attempt>, k: nat, hasWriter: bool)
    requires k < |attempts|
    ensures StartedFrom(attempts, k, hasWriter) ==
            if Retried(attempts[k], hasWriter) then 1 + StartedFrom(attempts, k + 1, hasWriter) else 1
  {
    assert attempts[k..][0] == attempts[k] && attempts[k..][1..] == attempts[k + 1..];
  }

  lemma StartedEnds(attempts: seq<Attempt>, hasWriter: bool)
    ensures StartedFrom(attempts, 0, hasWriter) == Started(attempts, hasWriter)
    ensures StartedFrom(attempts, |attempts|, hasWriter) == 0
  {
    assert attempts[0..] == attempts;
  }

  lemma AppendNothing(s: string, t: string)
    ensures t == "" ==> s + t == s
  {
  }

  lemma FailedAttempt(a: Attempt, hasWriter: bool)
    requires a.runFails
    ensures !Delivers(a, hasWriter) && Shown(a) == "" && (Retried(a, hasWriter) <==> a.eligible && a.recovers)
  {
  }

  lemma CollectedAttempt(a: Attempt, hasWriter: bool, n: nat, presented: bool)
    requires !a.runFails && n == (if hasWriter then |Accepted(a.outputs)| else 0) && presented == Presents(a.outputs)
    ensures Delivers(a, hasWriter) <==> n > 0 || presented
    ensures Shown(a) == Accepted(a.outputs) && (hasWriter && n == 0 ==> Shown(a) == "")
    ensures Retried(a, hasWriter) <==> a.collectFails && a.eligible && a.recovers && !(n > 0 || presented)
  {
    hide Accepted; hide Presents;
  }

  /** The loop over the attempts the surroundings allow. It stops at the first attempt that is
      not retried; the writer then holds exactly that attempt's output. */
  method ExecuteQuery(writer: CallerWriter?, attempts: seq<Attempt>) returns (started: nat, ok: bool)
    modifies writer
    ensures started == Started(attempts, writer != null)
    ensures ok <==> started > 0 && !attempts[started - 1].runFails && !attempts[started - 1].collectFails
    ensures writer != null && started > 0 ==> writer.received == old(writer.received) + Shown(attempts[started - 1])
    ensures writer != null && started == 0 ==> writer.received == old(writer.received)
    ensures forall k :: 0 <= k < started - 1 ==> !Delivers(attempts[k], writer != null)
  {
    var counter := new DeliveredByteCounter(writer);
    started := 0;
    ghost var was := if writer == null then "" else writer.received;
    StartedEnds(attempts, writer != null);
    AppendNothing(was, "");
    hide StartedFrom; hide Started; hide Taken; hide Presents; hide Accepted; hide Delivers; hide Shown; hide Retried;
    while started < |attempts|
      invariant started <= |attempts| && fresh(counter) && counter.writer == writer
      invariant started + StartedFrom(attempts, started, writer != null) == Started(attempts, writer != null)
      invariant !counter.Delivered()
      invariant writer != null ==> writer.received == was
      invariant started > 0 ==> Shown(attempts[started - 1]) == "" || writer == null
      invariant started > 0 ==> attempts[started - 1].runFails || attempts[started - 1].collectFails
      invariant forall k :: 0 <= k < started ==> !Delivers(attempts[k], writer != null)
    {
      var a := attempts[started];
      StartedNext(attempts, started, writer != null);
      started := started + 1;
      if a.runFails {
        FailedAttempt(a, writer != null);
        var (recovered, handled) := TryRetry(a, counter.Delivered());
        if recovered {
          continue;
        }
        return started, false;
      }
      Collect(counter, a.outputs);
      AppendNothing(was, Accepted(a.outputs));
      CollectedAttempt(a, writer != null, counter.n, counter.presented);
      if a.collectFails {
        var (recovered, handled) := TryRetry(a, counter.Delivered());
        if recovered {
          continue;
        }
        return started, false;
      }
      return started, true;
    }
    return started, false;
  }
}
