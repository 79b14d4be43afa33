/**
  Executors that run modules beside the dispatch loop (`receiver/src/engine/executor_threaded.rs`): what the
  receiver then sends, and why a hot swap loses no result.
*/
module Threaded {
  import opened Bits
  import opened Wrappers
  import opened Json
  import opened Results
  import opened Frames
  import opened Receiver
  import opened ReceiverSafety
  import opened Protocol
  import opened Delivery

  // ---------- the contract ----------

  /**
    `owed` lists the results an executor still has to report, a running module's included. Submitting owes one
    more, at the end; polling reports the first one or nothing; nothing else changes what is owed.
  */
  ghost predicate Fifo<E(!new)>(x: Executor<E>, owed: E -> seq<ExecResult>) {
    && (forall e, slots :: owed(x.tick(e, slots)) == owed(e))
    && (forall e :: owed(x.stop(e)) == owed(e))
    && (forall e, slots, code ::
          |owed(x.submit(e, slots, code))| == |owed(e)| + 1 && owed(x.submit(e, slots, code))[..|owed(e)|] == owed(e))
    && (forall e :: owed(e) == Reported(x.poll(e).1) + owed(x.poll(e).0))
  }

  function Reported(r: Option<ExecResult>): seq<ExecResult> {
    if r.Some? then [r.value] else []
  }

  /** The executor's state when the loop polls it, if this event makes it poll. */
  function PolledState<E>(b: Board<E>, d: Device<E>, event: Event): Option<E> {
    var e := b.executor.tick(d.exec, d.slots);
    match event
    case Gap => Some(e)
    case Arrived(f) =>
      if !Permitted(b.checks, b.policy, f) then None
      else Some(b.executor.submit(if IsSwap(f.opcode) then b.executor.stop(e) else e, d.slots, Carried(f)))
  }

  function ReportsOn<E>(b: Board<E>, d: Device<E>, event: Event): seq<ExecResult> {
    var e := PolledState(b, d, event);
    if e.None? then [] else Reported(b.executor.poll(e.value).1)
  }

  /** The results the loop has read from the executor over a run. */
  function Reports<E>(b: Board<E>, d: Device<E>, events: seq<Event>): seq<ExecResult>
    decreases |events|
  {
    if events == [] then []
    else
      var front := events[..|events| - 1];
      Reports(b, d, front) + ReportsOn(b, Serve(b, d, front).device, events[|events| - 1])
  }

  /** The result a push or swap is due: what it makes the executor owe, or its refusal. */
  function DueOn<E>(b: Board<E>, d: Device<E>, event: Event, owed: E -> seq<ExecResult>): seq<ExecResult> {
    if event.Gap? || !IsLoad(event.frame.opcode) then []
    else if !Permitted(b.checks, b.policy, event.frame) then
      [ExecResult(false, [], Some(Refusal(b.checks, b.policy, event.frame)))]
    else [AcceptedDue(b, d, event, owed)]
  }

  function AcceptedDue<E>(b: Board<E>, d: Device<E>, event: Event, owed: E -> seq<ExecResult>): ExecResult {
    var e := PolledState(b, d, event);
    if e.None? || owed(e.value) == [] then ExecResult(false, [], None) else owed(e.value)[|owed(e.value)| - 1]
  }

  /** One result for each push or swap, in order. */
  function Due<E>(b: Board<E>, d: Device<E>, events: seq<Event>, owed: E -> seq<ExecResult>): seq<ExecResult>
    decreases |events|
  {
    if events == [] then []
    else
      var front := events[..|events| - 1];
      Due(b, d, front, owed) + DueOn(b, Serve(b, d, front).device, events[|events| - 1], owed)
  }

  /** What the executor owes for an event, a refused push or swap apart. */
  function OwedFor<E>(b: Board<E>, d: Device<E>, event: Event, owed: E -> seq<ExecResult>): seq<ExecResult> {
    if Refused(b, event) then [] else DueOn(b, d, event, owed)
  }

  function Accepted<E>(b: Board<E>, d: Device<E>, events: seq<Event>, owed: E -> seq<ExecResult>): seq<ExecResult>
    decreases |events|
  {
    if events == [] then []
    else
      var front := events[..|events| - 1];
      Accepted(b, d, front, owed) + OwedFor(b, Serve(b, d, front).device, events[|events| - 1], owed)
  }

  lemma StepOwes<E(!new)>(b: Board<E>, d: Device<E>, event: Event, owed: E -> seq<ExecResult>)
    requires Fifo(b.executor, owed)
    ensures owed(d.exec) + OwedFor(b, d, event, owed) == ReportsOn(b, d, event) + owed(Step(b, d, event).device.exec)
  {
    hide Permitted, Write, Refusal, SetParam, StatusJson, UnknownOpcodeText, Carried;
    PermittedLoads(b, event);
    var before, after := owed(d.exec), owed(Step(b, d, event).device.exec);
    if PolledState(b, d, event).None? {
      assert before + [] == [] + before;
    } else if event.Gap? {
      assert before + [] == before;
    } else {
      var e := PolledState(b, d, event).value;
      assert owed(e) == owed(e)[..|owed(e)| - 1] + [owed(e)[|owed(e)| - 1]];
    }
  }

  lemma PermittedLoads<E>(b: Board<E>, event: Event)
    ensures event.Arrived? && Permitted(b.checks, b.policy, event.frame) ==> IsLoad(event.frame.opcode)
  {
  }

  /** No result is lost or reordered: those read so far and those still owed are those of the accepted pushes, in order. */
  lemma {:induction false} NothingLost<E(!new)>(b: Board<E>, d: Device<E>, events: seq<Event>, owed: E -> seq<ExecResult>)
    requires Fifo(b.executor, owed)
    ensures owed(d.exec) + Accepted(b, d, events, owed) == Reports(b, d, events) + owed(Serve(b, d, events).device.exec)
    decreases |events|
  {
    hide Step, OwedFor, ReportsOn, Fifo;
    if events == [] {
      assert owed(d.exec) + [] == [] + owed(d.exec);
    } else {
      var front, last := events[..|events| - 1], events[|events| - 1];
      NothingLost(b, d, front, owed);
      var mid := Serve(b, d, front).device;
      StepOwes(b, mid, last, owed);
      Assoc(owed(d.exec), Accepted(b, d, front, owed), OwedFor(b, mid, last, owed));
      Assoc(Reports(b, d, front), owed(mid.exec), OwedFor(b, mid, last, owed));
      Assoc(Reports(b, d, front), ReportsOn(b, mid, last), owed(Step(b, mid, last).device.exec));
    }
  }

  // ---------- what reaches the host ----------

  /** The results an event makes the receiver write: those read from the executor, or a refusal. */
  function WrittenOn<E>(b: Board<E>, d: Device<E>, event: Event): seq<ExecResult> {
    if Refused(b, event) then [ExecResult(false, [], Some(Refusal(b.checks, b.policy, event.frame)))]
    else ReportsOn(b, d, event)
  }

  lemma StepWrites<E>(b: Board<E>, d: Device<E>, event: Event)
    requires event.Arrived? ==> HostSends(event.frame)
    ensures Texts(OP_EXEC_RESULT, Step(b, d, event).out) == Written(WrittenOn(b, d, event))
  {
    hide Write, Refusal, StatusJson, UnknownOpcodeText, Texts, SetParam, Carried, Permitted;
    PermittedLoads(b, event);
    var out := Step(b, d, event).out;
    if out != [] {
      assert out == [out[0]];
      TextsOne(OP_EXEC_RESULT, out[0]);
    } else {
      TextsOne(OP_EXEC_RESULT, Reply(0, []));
    }
  }

  /** Results written and results owed are, in number, the pushes and swaps served. */
  lemma {:induction false} WrittenPlusOwed<E(!new)>(b: Board<E>, d: Device<E>, events: seq<Event>, owed: E -> seq<ExecResult>)
    requires Fifo(b.executor, owed) && owed(d.exec) == [] && FromHost(events)
    ensures |Texts(OP_EXEC_RESULT, Serve(b, d, events).out)| + |owed(Serve(b, d, events).device.exec)|
         == Count(FramesOf(events), IsLoadFrame)
    decreases |events|
  {
    hide Step, Fifo, Texts, WrittenOn, ReportsOn, OwedFor;
    if events == [] {
      TextsOne(OP_EXEC_RESULT, Reply(0, []));
    } else {
      var front, last := events[..|events| - 1], events[|events| - 1];
      WrittenPlusOwed(b, d, front, owed);
      var mid := Serve(b, d, front);
      StepWrites(b, mid.device, last);
      StepOwes(b, mid.device, last, owed);
      TextsAppend(OP_EXEC_RESULT, mid.out, Step(b, mid.device, last).out);
      WrittenOrOwed(b, mid.device, last, owed);
      CountFrame(FramesOf(front), last);
    }
  }

  lemma WrittenOrOwed<E>(b: Board<E>, d: Device<E>, event: Event, owed: E -> seq<ExecResult>)
    ensures |WrittenOn(b, d, event)| + |OwedFor(b, d, event, owed)|
         == |ReportsOn(b, d, event)| + if event.Arrived? && IsLoad(event.frame.opcode) then 1 else 0
  {
    hide Permitted, Carried;
    PermittedLoads(b, event);
  }

  lemma CountFrame(frames: seq<Frame>, event: Event)
    ensures Count(frames + (if event.Arrived? then [event.frame] else []), IsLoadFrame)
         == Count(frames, IsLoadFrame) + if event.Arrived? && IsLoad(event.frame.opcode) then 1 else 0
  {
    if event.Arrived? {
      assert (frames + [event.frame])[..|frames|] == frames;
    } else {
      assert frames + [] == frames;
    }
  }

  /**
    A refusal does not wait its turn. Its reply takes its own place among the results, behind as many of them as
    pushes and swaps came before it, if and only if the executor owes nothing when it comes.
  */
  lemma RefusalInPlaceIff<E(!new)>(b: Board<E>, d: Device<E>, front: seq<Event>, g: Frame, owed: E -> seq<ExecResult>)
    requires Fifo(b.executor, owed) && owed(d.exec) == [] && FromHost(front)
    requires Refused(b, Arrived(g))
    ensures var before := Texts(OP_EXEC_RESULT, Serve(b, d, front).out);
      && Texts(OP_EXEC_RESULT, Serve(b, d, front + [Arrived(g)]).out)
           == before + [Write(ErrorValue(Refusal(b.checks, b.policy, g)))]
      && (|before| == Count(FramesOf(front), IsLoadFrame) <==> owed(Serve(b, d, front).device.exec) == [])
  {
    hide Step, Fifo, Texts, Write, Permitted, Refusal, WrittenOn;
    WrittenPlusOwed(b, d, front, owed);
    var events := front + [Arrived(g)];
    ServeOneMore(b, d, events, |front|);
    assert events[..|front|] == front && events[..|front| + 1] == events;
    var mid := Serve(b, d, front);
    StepWrites(b, mid.device, Arrived(g));
    TextsAppend(OP_EXEC_RESULT, mid.out, Step(b, mid.device, Arrived(g)).out);
    RefusalWritten(b, mid.device, g);
  }

  lemma RefusalWritten<E>(b: Board<E>, d: Device<E>, g: Frame)
    requires Refused(b, Arrived(g))
    ensures Written(WrittenOn(b, d, Arrived(g))) == [Write(ErrorValue(Refusal(b.checks, b.policy, g)))]
  {
    hide Write, Permitted, Refusal;
  }

  /** Every refused push or swap is served while the executor owes nothing. */
  ghost predicate RefusalsInPlace<E>(b: Board<E>, d: Device<E>, events: seq<Event>, owed: E -> seq<ExecResult>)
  {
    forall i :: 0 <= i < |events| && Refused(b, events[i]) ==> owed(Serve(b, d, events[..i]).device.exec) == []
  }

  /** Then the results written and those still owed are those due, refusals among them, in order. */
  lemma {:induction false} WrittenAreDue<E(!new)>(b: Board<E>, d: Device<E>, events: seq<Event>, owed: E -> seq<ExecResult>)
    requires Fifo(b.executor, owed) && owed(d.exec) == []
    requires FromHost(events) && RefusalsInPlace(b, d, events, owed)
    ensures Texts(OP_EXEC_RESULT, Serve(b, d, events).out) + Written(owed(Serve(b, d, events).device.exec))
         == Written(Due(b, d, events, owed))
    decreases |events|
  {
    hide Step, Fifo, Texts, WrittenOn, DueOn, ReportsOn, Write, Refused;
    if events == [] {
      TextsOne(OP_EXEC_RESULT, Reply(0, []));
    } else {
      var front, last := events[..|events| - 1], events[|events| - 1];
      forall i | 0 <= i < |front|
        ensures front[..i] == events[..i]
      {
      }
      WrittenAreDue(b, d, front, owed);
      var mid := Serve(b, d, front);
      var after := owed(Step(b, mid.device, last).device.exec);
      StepWrites(b, mid.device, last);
      StepKeepsOrder(b, mid.device, last, owed);
      TextsAppend(OP_EXEC_RESULT, mid.out, Step(b, mid.device, last).out);
      WrittenAppend(Due(b, d, front, owed), DueOn(b, mid.device, last, owed));
      WrittenAppend(owed(mid.device.exec), DueOn(b, mid.device, last, owed));
      WrittenAppend(WrittenOn(b, mid.device, last), after);
      Assoc(Texts(OP_EXEC_RESULT, mid.out), Written(WrittenOn(b, mid.device, last)), Written(after));
      Assoc(Texts(OP_EXEC_RESULT, mid.out), Written(owed(mid.device.exec)), Written(DueOn(b, mid.device, last, owed)));
    }
  }

  lemma StepKeepsOrder<E(!new)>(b: Board<E>, d: Device<E>, event: Event, owed: E -> seq<ExecResult>)
    requires Fifo(b.executor, owed) && (Refused(b, event) ==> owed(d.exec) == [])
    ensures owed(d.exec) + DueOn(b, d, event, owed) == WrittenOn(b, d, event) + owed(Step(b, d, event).device.exec)
  {
    hide Permitted, Refusal, Carried, Step, Fifo;
    StepOwes(b, d, event, owed);
  }

  /** The `k`-th due result is that of the `k`-th push or swap. */
  lemma {:induction false} KthDue<E>(b: Board<E>, d: Device<E>, events: seq<Event>, owed: E -> seq<ExecResult>, k: nat) returns (i: nat)
    requires k < |Due(b, d, events, owed)|
    ensures i < |events| && events[i].Arrived? && IsLoad(events[i].frame.opcode)
    ensures Count(FramesOf(events[..i]), IsLoadFrame) == k
    ensures [Due(b, d, events, owed)[k]] == DueOn(b, Serve(b, d, events[..i]).device, events[i], owed)
    decreases |events|
  {
    hide Serve, Permitted, AcceptedDue, Refusal;
    var front := events[..|events| - 1];
    if k < |Due(b, d, front, owed)| {
      i := KthDue(b, d, front, owed, k);
      assert front[..i] == events[..i];
    } else {
      i := |front|;
      DueCount(b, d, front, owed);
    }
  }

  lemma {:induction false} DueCount<E>(b: Board<E>, d: Device<E>, events: seq<Event>, owed: E -> seq<ExecResult>)
    ensures |Due(b, d, events, owed)| == Count(FramesOf(events), IsLoadFrame)
    decreases |events|
  {
    if events != [] {
      hide Serve, Permitted, AcceptedDue, Refusal;
      DueCount(b, d, events[..|events| - 1], owed);
      CountFrame(FramesOf(events[..|events| - 1]), events[|events| - 1]);
    }
  }

  /**
    Under any executor that owes its results in order, in every run whose refusals come while nothing is owed: the
    `k`-th result handed to a caller is the result due for the `k`-th push or swap the host sent.
  */
  lemma DeliveredAreDue<E(!new)>(b: Board<E>, d: Device<E>, actions: seq<Action>, owed: E -> seq<ExecResult>, k: nat) returns (i: nat, j: nat)
    requires Fifo(b.executor, owed) && owed(d.exec) == []
    requires RefusalsInPlace(b, d, Run(b, Initial(d), actions).served, owed)
    requires k < |Run(b, Initial(d), actions).delivered|
    ensures var s := Run(b, Initial(d), actions);
      && i < |s.served| && j < |s.sent| && s.served[i] == Arrived(s.sent[j])
      && FramesOf(s.served[..i]) == s.sent[..j]
      && IsLoad(s.sent[j].opcode) && Count(s.sent[..j], IsLoadFrame) == k
      && var due := DueOn(b, Serve(b, d, s.served[..i]).device, s.served[i], owed);
         |due| == 1 && ParseResult(s.delivered[k]) == Some(HostView(due[0]))
  {
    hide Run, Serve, Texts, Due, DueOn, Write, ParseResult, Fifo, RefusalsInPlace, Tickets;
    var s := Run(b, Initial(d), actions);
    RunKeeps(b, d, actions);
    WrittenAreDue(b, d, s.served, owed);
    var due := Due(b, d, s.served, owed);
    var written := s.delivered + s.pending + Texts(OP_EXEC_RESULT, s.toHost);
    assert s.delivered[k] == written[k] == Written(due)[k] == Write(ResultValue(due[k]));
    i := KthDue(b, d, s.served, owed, k);
    FramesPrefix(s.served, i);
    j := |FramesOf(s.served[..i])|;
    assert s.sent[..j] == FramesOf(s.served)[..j];
    ResultRoundTrip(due[k]);
  }

  /** A refusal overtakes the result of a module that is still running. */
  lemma RefusalOvertakes<E(!new)>(b: Board<E>, d: Device<E>, f: Frame, g: Frame)
    requires IsLoad(f.opcode) && Permitted(b.checks, b.policy, f)
    requires Refused(b, Arrived(g))
    requires ReportsOn(b, d, Arrived(f)) == []
    ensures Texts(OP_EXEC_RESULT, Serve(b, d, [Arrived(f), Arrived(g)]).out) == [Write(ErrorValue(Refusal(b.checks, b.policy, g)))]
  {
    hide Write, Refusal, Permitted, Texts, Carried;
    var events := [Arrived(f), Arrived(g)];
    ServeOneMore(b, d, events, 0);
    ServeOneMore(b, d, events, 1);
    assert events[..2] == events && events[..0] == [];
    var mid := Serve(b, d, events[..1]);
    assert mid.out == [] by { StepReportsNothing(b, d, f); }
    var refusal := Reply(OP_EXEC_RESULT, Write(ErrorValue(Refusal(b.checks, b.policy, g))));
    assert Step(b, mid.device, Arrived(g)).out == [refusal];
    assert [] + [refusal] == [refusal];
    TextsOne(OP_EXEC_RESULT, refusal);
  }

  lemma StepReportsNothing<E>(b: Board<E>, d: Device<E>, f: Frame)
    requires IsLoad(f.opcode) && Permitted(b.checks, b.policy, f) && ReportsOn(b, d, Arrived(f)) == []
    ensures Step(b, d, Arrived(f)).out == []
  {
    hide Write, Refusal, Permitted, Carried;
  }

  // ---------- the threaded executor ----------

  /** A worker: whether it has finished, the hardware it gives back unless it panicked, and its result. */
  datatype Worker<H> = Worker(finished: bool, hardware: Option<H>, result: ExecResult)

  datatype Thread<H> = Thread(hardware: Option<H>, status: ExecStatus, handle: Option<Worker<H>>, results: seq<ExecResult>, clock: nat)

  function WorkerResult<H>(w: Worker<H>): ExecResult {
    if w.hardware.Some? then w.result else ExecResult(false, [], Some("executor thread panicked"))
  }

  /** `reap`: join the worker; its result is queued behind those not yet read. */
  function Reap<H>(e: Thread<H>): Thread<H> {
    if e.handle.None? then e
    else
      var w := e.handle.value;
      e.(hardware := if w.hardware.Some? then w.hardware else e.hardware,
         results := e.results + [WorkerResult(w)],
         status := if e.status != Stopped then Completed else e.status,
         handle := None)
  }

  function SubmitThread<H>(run: (H, seq<u32>, seq<u8>, nat) -> Worker<H>, e: Thread<H>, slots: seq<u32>, code: seq<u8>): Thread<H> {
    var free := Reap(e);
    match free.hardware
    case None =>
      free.(results := free.results + [ExecResult(false, [], Some("no hardware available"))], status := Completed)
    case Some(h) =>
      free.(hardware := None, status := Running, handle := Some(run(h, slots, code, free.clock)))
  }

  function PollThread<H>(e: Thread<H>): (Thread<H>, Option<ExecResult>) {
    var now := if e.handle.Some? && e.handle.value.finished then Reap(e) else e;
    if now.handle.None? && now.results != []
    then (now.(results := now.results[1..], status := Idle), Some(now.results[0]))
    else (now, None)
  }

  predicate IsRunning<H>(e: Thread<H>) {
    e.handle.Some? && !e.handle.value.finished
  }

  /**
    `ThreadedExecutor`. `run` foretells what becomes of a worker started at a moment, and `finishes` the moments at
    which workers end. No two workers start at the same moment, so whatever slots and stops do to a running module,
    some `run` foretells it.
  */
  function ThreadedExecutor<H(!new)>(run: (H, seq<u32>, seq<u8>, nat) -> Worker<H>, finishes: nat -> bool): Executor<Thread<H>> {
    Executor(
      (e: Thread<H>, slots: seq<u32>, code: seq<u8>) => SubmitThread(run, e, slots, code),
      (e: Thread<H>) => PollThread(e),
      (e: Thread<H>) => e.(status := Stopped),
      (e: Thread<H>) => if IsRunning(e) then Running else e.status,
      (e: Thread<H>) => IsRunning(e),
      (e: Thread<H>, slots: seq<u32>) =>
        if e.handle.Some? && finishes(e.clock)
        then e.(clock := e.clock + 1, handle := Some(e.handle.value.(finished := true)))
        else e.(clock := e.clock + 1))
  }

  function ThreadOwes<H>(e: Thread<H>): seq<ExecResult> {
    if e.handle.Some? then e.results + [WorkerResult(e.handle.value)] else e.results
  }

  /** Results wait in a queue, so a hot swap that reaps one module and starts the next loses neither's result. */
  lemma ThreadedIsFifo<H(!new)>(run: (H, seq<u32>, seq<u8>, nat) -> Worker<H>, finishes: nat -> bool)
    ensures Fifo(ThreadedExecutor(run, finishes), (e: Thread<H>) => ThreadOwes(e))
  {
    var x := ThreadedExecutor(run, finishes);
    forall e: Thread<H>
      ensures ThreadOwes(e) == Reported(x.poll(e).1) + ThreadOwes(x.poll(e).0)
    {
      var now := if e.handle.Some? && e.handle.value.finished then Reap(e) else e;
      assert ThreadOwes(now) == ThreadOwes(e);
      if now.handle.None? && now.results != [] {
        assert now.results == [now.results[0]] + now.results[1..];
      } else {
        assert [] + ThreadOwes(now) == ThreadOwes(now);
      }
    }
  }

  /** The hardware a new module can have: that of the worker that is reaped for it, or what lies idle. */
  function FreeHardware<H>(e: Thread<H>): Option<H> {
    if e.handle.Some? && e.handle.value.hardware.Some? then e.handle.value.hardware else e.hardware
  }

  /** A module is started whenever there is hardware for it, and owes what becomes of it; otherwise it owes an error. */
  lemma SubmitStarts<H(!new)>(run: (H, seq<u32>, seq<u8>, nat) -> Worker<H>, finishes: nat -> bool,
                              e: Thread<H>, slots: seq<u32>, code: seq<u8>)
    ensures var after := ThreadedExecutor(run, finishes).submit(e, slots, code);
      match FreeHardware(e)
      case Some(h) =>
        && after.handle == Some(run(h, slots, code, e.clock)) && after.hardware == None && after.status == Running
        && var w := run(h, slots, code, e.clock);
        && ThreadOwes(after) == ThreadOwes(e) + [
             if w.hardware.Some? then w.result else ExecResult(false, [], Some("executor thread panicked"))]
      case None =>
        && after.handle == None && after.status == Completed
        && ThreadOwes(after) == ThreadOwes(e) + [ExecResult(false, [], Some("no hardware available"))]
  {
  }

  /** While a worker runs nothing is reported; otherwise the oldest result owed is, and only that. */
  lemma PollReports<H(!new)>(run: (H, seq<u32>, seq<u8>, nat) -> Worker<H>, finishes: nat -> bool, e: Thread<H>)
    ensures var (after, r) := ThreadedExecutor(run, finishes).poll(e);
      && after.clock == e.clock && IsRunning(after) == IsRunning(e)
      && (IsRunning(e) ==> r == None && after == e)
      && (!IsRunning(e) && ThreadOwes(e) == [] ==> r == None && ThreadOwes(after) == [])
      && (!IsRunning(e) && ThreadOwes(e) != [] ==> r == Some(ThreadOwes(e)[0]) && ThreadOwes(after) == ThreadOwes(e)[1..])
  {
    if e.handle.Some? && e.handle.value.finished && e.results != [] {
      assert (e.results + [WorkerResult(e.handle.value)])[1..] == e.results[1..] + [WorkerResult(e.handle.value)];
    }
  }

  /** The status names a running worker first, then what happened last: a stop, a result read, or a result waiting. */
  lemma ThreadStatus<H(!new)>(run: (H, seq<u32>, seq<u8>, nat) -> Worker<H>, finishes: nat -> bool, e: Thread<H>)
    ensures var x := ThreadedExecutor(run, finishes);
      && x.running(e) == IsRunning(e)
      && (IsRunning(e) ==> x.status(e) == Running)
      && (!IsRunning(e) ==> x.status(x.stop(e)) == Stopped)
      && (x.poll(e).1.Some? ==> x.status(x.poll(e).0) == Idle)
  {
  }

  // ---------- every result is delivered in the end ----------

  function Gaps(n: nat): seq<Event> {
    if n == 0 then [] else [Gap] + Gaps(n - 1)
  }

  function Replies(results: seq<ExecResult>): seq<Reply> {
    if results == [] then [] else [ResultReply(results[0])] + Replies(results[1..])
  }

  lemma {:induction false} ServeFirst<E>(b: Board<E>, d: Device<E>, event: Event, more: seq<Event>)
    ensures Serve(b, d, [event] + more).device == Serve(b, Step(b, d, event).device, more).device
    ensures Serve(b, d, [event] + more).out == Step(b, d, event).out + Serve(b, Step(b, d, event).device, more).out
    decreases |more|
  {
    hide Step;
    var events := [event] + more;
    if more == [] {
      assert events == [event] && events[..0] == [];
      ServeOneMore(b, d, events, 0);
      assert events[..1] == events;
      assert [] + Step(b, d, event).out == Step(b, d, event).out + [];
    } else {
      var front, last := more[..|more| - 1], more[|more| - 1];
      ServeFirst(b, d, event, front);
      assert events[..|events| - 1] == [event] + front;
      var mid := Serve(b, Step(b, d, event).device, front);
      Assoc(Step(b, d, event).out, mid.out, Step(b, mid.device, last).out);
    }
  }

  /** An idle gap with no worker running writes the oldest owed result, and nothing if none is owed. */
  lemma GapWritesOldest<H(!new)>(b: Board<Thread<H>>, d: Device<Thread<H>>,
                                 run: (H, seq<u32>, seq<u8>, nat) -> Worker<H>, finishes: nat -> bool)
    requires b.executor == ThreadedExecutor(run, finishes)
    ensures var e, t := d.exec, Step(b, d, Gap);
      var running := IsRunning(e) && !finishes(e.clock);
      && t.device.exec.clock == e.clock + 1
      && IsRunning(t.device.exec) == running
      && (if running || ThreadOwes(e) == [] then t.out == [] && ThreadOwes(t.device.exec) == ThreadOwes(e)
          else t.out == [ResultReply(ThreadOwes(e)[0])] && ThreadOwes(t.device.exec) == ThreadOwes(e)[1..])
  {
    hide Write, PollThread;
    var ticked := b.executor.tick(d.exec, d.slots);
    assert ThreadOwes(ticked) == ThreadOwes(d.exec);
    PollReports(run, finishes, ticked);
  }

  /** A worker that runs now has ended by the `k`-th turn from now. */
  predicate EndsWithin<H>(e: Thread<H>, finishes: nat -> bool, k: nat) {
    !IsRunning(e) || (exists moment :: e.clock <= moment < e.clock + k && finishes(moment))
  }

  /**
    If no new module comes, finitely many gaps deliver everything: once the running worker has had its turns to end
    and each owed result its own, all of them have been written, in order, and nothing is owed.
  */
  lemma {:induction false} GapsDeliverAll<H(!new)>(b: Board<Thread<H>>, d: Device<Thread<H>>,
                                                   run: (H, seq<u32>, seq<u8>, nat) -> Worker<H>, finishes: nat -> bool, k: nat, n: nat)
    requires b.executor == ThreadedExecutor(run, finishes)
    requires EndsWithin(d.exec, finishes, k) && n >= k + |ThreadOwes(d.exec)|
    ensures ThreadOwes(Serve(b, d, Gaps(n)).device.exec) == []
    ensures Serve(b, d, Gaps(n)).out == Replies(ThreadOwes(d.exec))
    decreases n
  {
    hide Step, Serve, Write, ThreadedExecutor;
    var e := d.exec;
    if n == 0 {
      ServeNothing(b, d);
    } else {
      var t := Step(b, d, Gap);
      GapWritesOldest(b, d, run, finishes);
      ServeFirst(b, d, Gap, Gaps(n - 1));
      if IsRunning(e) && !finishes(e.clock) {
        GapsDeliverAll(b, t.device, run, finishes, k - 1, n - 1);
      } else {
        GapsDeliverAll(b, t.device, run, finishes, 0, n - 1);
      }
    }
  }

  lemma ServeNothing<E>(b: Board<E>, d: Device<E>)
    ensures Serve(b, d, []) == Turn(d, [])
  {
  }
}
