/**
  Properties of every run of the receiver, for every executor, policy and stream of events: what reaches the
  executor, what refused modules leave behind, what the parameter slots hold, and what is answered when the
  executor is a blocking one.
*/
module ReceiverSafety {
  import opened Bits
  import opened Wrappers
  import opened Json
  import opened Results
  import opened Frames
  import opened Receiver

  // ---------- what reaches the executor ----------

  /** The calls one event may cause: a module is submitted only behind the policy, and polled for at once. */
  function CallsOn<E>(b: Board<E>, event: Event): seq<Call> {
    match event
    case Gap => [Poll]
    case Arrived(f) =>
      if f.opcode == OP_STOP then [Stop]
      else if Permitted(b.checks, b.policy, f) then
        (if IsSwap(f.opcode) then [Stop] else []) + [Submit(Carried(f)), Poll]
      else []
  }

  function CallsOver<E>(b: Board<E>, events: seq<Event>): seq<Call> {
    if events == [] then []
    else CallsOver(b, events[..|events| - 1]) + CallsOn(b, events[|events| - 1])
  }

  lemma StepCalls<E>(b: Board<E>, d: Device<E>, event: Event)
    ensures Step(b, d, event).device.calls == d.calls + CallsOn(b, event)
  {
  }

  /** The executor sees exactly the calls the policy allows, in the order of the events. */
  lemma {:induction false} CallLog<E>(b: Board<E>, d: Device<E>, events: seq<Event>)
    ensures Serve(b, d, events).device.calls == d.calls + CallsOver(b, events)
    decreases |events|
  {
    hide Step, CallsOn;
    if events == [] {
      assert d.calls + [] == d.calls;
    } else {
      var front, last := events[..|events| - 1], events[|events| - 1];
      CallLog(b, d, front);
      StepCalls(b, Serve(b, d, front).device, last);
      Assoc(d.calls, CallsOver(b, front), CallsOn(b, last));
    }
  }

  /**
    Every module ever handed to the executor came in a frame of the stream that passed the import check, and
    was signed under the trusted key if its opcode or the policy asks for a signature.
  */
  lemma SubmittedModulesArePermitted<E>(b: Board<E>, d: Device<E>, events: seq<Event>, i: nat) returns (k: nat)
    requires |d.calls| <= i < |Serve(b, d, events).device.calls|
    requires Serve(b, d, events).device.calls[i].Submit?
    ensures k < |events| && events[k].Arrived?
    ensures var f := events[k].frame;
      && Serve(b, d, events).device.calls[i].code == Carried(f)
      && b.checks.imports(Carried(f)).valid
      && (b.policy.requireSigned || IsSigned(f.opcode) ==>
            b.policy.trustedKey.Some? && |f.payload| > 64 && Carried(f) == f.payload[64..]
            && b.checks.verifies(b.policy.trustedKey.value, f.payload[64..], f.payload[..64]))
  {
    hide Step;
    CallLog(b, d, events);
    k := SubmitSource(b, events, i - |d.calls|);
  }

  lemma {:induction false} SubmitSource<E>(b: Board<E>, events: seq<Event>, i: nat) returns (k: nat)
    requires i < |CallsOver(b, events)| && CallsOver(b, events)[i].Submit?
    ensures k < |events| && events[k].Arrived? && Permitted(b.checks, b.policy, events[k].frame)
    ensures CallsOver(b, events)[i].code == Carried(events[k].frame)
  {
    hide Permitted, Carried;
    var front := events[..|events| - 1];
    if i < |CallsOver(b, front)| {
      k := SubmitSource(b, front, i);
    } else {
      k := |front|;
    }
  }

  // ---------- refused modules ----------

  /** A refused push or swap touches nothing and is answered by exactly one failed result naming the reason. */
  lemma RefusedLoad<E>(b: Board<E>, d: Device<E>, f: Frame)
    requires IsLoad(f.opcode) && !Permitted(b.checks, b.policy, f)
    ensures Step(b, d, Arrived(f)).device == Ticked(b, d)
    ensures |Step(b, d, Arrived(f)).out| == 1 && Step(b, d, Arrived(f)).out[0].opcode == OP_EXEC_RESULT
    ensures ParseResult(Step(b, d, Arrived(f)).out[0].text)
         == Some(HostResult(Bool(false), Arr([]), Str(Refusal(b.checks, b.policy, f))))
  {
    hide Permitted, Write, Refusal, ParseResult;
    RefusalParses(Refusal(b.checks, b.policy, f));
  }

  lemma RefusalParses(reason: string)
    ensures ParseResult(Write(ErrorValue(reason))) == Some(HostResult(Bool(false), Arr([]), Str(reason)))
  {
    hide Write, ParseResult;
    ResultRoundTrip(ExecResult(false, [], Some(reason)));
  }

  predicate Refused<E>(b: Board<E>, event: Event) {
    event.Arrived? && IsLoad(event.frame.opcode) && !Permitted(b.checks, b.policy, event.frame)
  }

  function WithoutRefused<E>(b: Board<E>, events: seq<Event>): seq<Event> {
    if events == [] then []
    else
      var front, last := WithoutRefused(b, events[..|events| - 1]), events[|events| - 1];
      if Refused(b, last) then front else front + [last]
  }

  ghost predicate Still<E(!new)>(x: Executor<E>) {
    forall e, slots :: x.tick(e, slots) == e
  }

  /** The receiver over a stream in which refused modules never came, and only the time of their coming passed. */
  function LetPass<E>(b: Board<E>, d: Device<E>, events: seq<Event>): Device<E>
    decreases |events|
  {
    if events == [] then d
    else
      var before := LetPass(b, d, events[..|events| - 1]);
      var last := events[|events| - 1];
      if Refused(b, last) then Ticked(b, before) else Step(b, before, last).device
  }

  /**
    Refused modules are invisible under every executor: the receiver ends as if only time had passed. Where the
    executor does nothing on its own, the frames can be left out altogether.
  */
  lemma {:induction false} RefusedAreInvisible<E(!new)>(b: Board<E>, d: Device<E>, events: seq<Event>)
    ensures Serve(b, d, events).device == LetPass(b, d, events)
    ensures Still(b.executor) ==> Serve(b, d, events).device == Serve(b, d, WithoutRefused(b, events)).device
    decreases |events|
  {
    hide Step, Refused, Ticked, Still;
    if events != [] {
      var front, last := events[..|events| - 1], events[|events| - 1];
      RefusedAreInvisible(b, d, front);
      var kept := WithoutRefused(b, front);
      if Refused(b, last) {
        RefusedDoesNothing(b, Serve(b, d, front).device, last);
      } else {
        assert (kept + [last])[..|kept|] == kept;
      }
    }
  }

  lemma RefusedDoesNothing<E(!new)>(b: Board<E>, d: Device<E>, event: Event)
    requires Refused(b, event)
    ensures Step(b, d, event).device == Ticked(b, d)
    ensures Still(b.executor) ==> Ticked(b, d) == d
  {
    hide Permitted, Write, Refusal;
  }

  // ---------- parameter slots ----------

  /** The value a slot was last set to. */
  function LastSet(events: seq<Event>, slot: nat, initial: u32): u32 {
    if events == [] then initial
    else
      var last := events[|events| - 1];
      if last.Arrived? && last.frame.opcode == OP_SET_PARAM && |last.frame.payload| >= 8
         && FromBytes32(last.frame.payload[..4]) == slot
      then FromBytes32(last.frame.payload[4..8])
      else LastSet(events[..|events| - 1], slot, initial)
  }

  /** Only `OP_SET_PARAM` changes the slots a module reads: each holds what it was last set to. */
  lemma {:induction false} SlotsHoldLastSet<E>(b: Board<E>, d: Device<E>, events: seq<Event>, slot: nat)
    requires slot < |d.slots|
    ensures |Serve(b, d, events).device.slots| == |d.slots|
    ensures Serve(b, d, events).device.slots[slot] == LastSet(events, slot, d.slots[slot])
    decreases |events|
  {
    if events != [] {
      hide FromBytes32, Permitted, Write, Refusal, UnknownOpcodeText, StatusJson;
      SlotsHoldLastSet(b, d, events[..|events| - 1], slot);
    }
  }

  // ---------- blocking executors ----------

  /** The contract of a blocking executor: a result is ready right after `submit`, and at no other time. */
  ghost predicate Blocking<E(!new)>(x: Executor<E>, quiet: E -> bool) {
    && (forall e, slots :: quiet(e) ==> quiet(x.tick(e, slots)))
    && (forall e :: quiet(e) ==> quiet(x.stop(e)))
    && (forall e :: quiet(e) ==> x.poll(e).1 == None && quiet(x.poll(e).0))
    && (forall e, slots, code :: quiet(e) ==>
          x.poll(x.submit(e, slots, code)).1.Some? && quiet(x.poll(x.submit(e, slots, code)).0))
  }

  /** The frames the host's device interface sends, discovery aside. */
  predicate HostSends(f: Frame) {
    IsLoad(f.opcode) || f.opcode == OP_STOP || f.opcode == OP_QUERY_STATUS || f.opcode == OP_SET_PARAM
  }

  predicate IsLoadFrame(f: Frame) {
    IsLoad(f.opcode)
  }

  predicate IsStatusRequest(f: Frame) {
    f.opcode == OP_STOP || f.opcode == OP_QUERY_STATUS
  }

  /** What running a module, or refusing it, comes to. */
  function Outcome<E>(b: Board<E>, d: Device<E>, f: Frame): ExecResult {
    if Permitted(b.checks, b.policy, f) then
      var start := if IsSwap(f.opcode) then b.executor.stop(d.exec) else d.exec;
      match b.executor.poll(b.executor.submit(start, d.slots, Carried(f))).1
      case Some(r) => r
      case None => ExecResult(false, [], None)
    else ExecResult(false, [], Some(Refusal(b.checks, b.policy, f)))
  }

  function OutcomesOn<E>(b: Board<E>, d: Device<E>, event: Event): seq<ExecResult> {
    if event.Arrived? && IsLoad(event.frame.opcode) then [Outcome(b, Ticked(b, d), event.frame)] else []
  }

  /** One outcome for each push or swap, in order. */
  function Outcomes<E>(b: Board<E>, d: Device<E>, events: seq<Event>): seq<ExecResult>
    decreases |events|
  {
    if events == [] then []
    else
      var front, last := events[..|events| - 1], events[|events| - 1];
      Outcomes(b, d, front) + OutcomesOn(b, Serve(b, d, front).device, last)
  }

  function AnswerOn<E>(b: Board<E>, d: Device<E>, event: Event): seq<string> {
    if event.Gap? then []
    else if event.frame.opcode == OP_STOP then [STOPPED_JSON]
    else if event.frame.opcode == OP_QUERY_STATUS then
      var exec := b.executor.tick(d.exec, d.slots);
      [StatusJson(b.executor.status(exec), b.executor.running(exec))]
    else []
  }

  /** One answer for each stop or status request, in order. */
  function Answers<E>(b: Board<E>, d: Device<E>, events: seq<Event>): seq<string>
    decreases |events|
  {
    if events == [] then []
    else
      var front, last := events[..|events| - 1], events[|events| - 1];
      Answers(b, d, front) + AnswerOn(b, Serve(b, d, front).device, last)
  }

  function Texts(opcode: u8, out: seq<Reply>): seq<string> {
    if out == [] then []
    else (if out[0].opcode == opcode then [out[0].text] else []) + Texts(opcode, out[1..])
  }

  lemma {:induction false} TextsAppend(opcode: u8, a: seq<Reply>, b: seq<Reply>)
    ensures Texts(opcode, a + b) == Texts(opcode, a) + Texts(opcode, b)
  {
    if a == [] {
      assert a + b == b;
    } else {
      TextsAppend(opcode, a[1..], b);
      assert (a + b)[0] == a[0] && (a + b)[1..] == a[1..] + b;
      Assoc(if a[0].opcode == opcode then [a[0].text] else [], Texts(opcode, a[1..]), Texts(opcode, b));
    }
  }

  lemma TextsOne(opcode: u8, r: Reply)
    ensures Texts(opcode, [r]) == if r.opcode == opcode then [r.text] else []
    ensures Texts(opcode, []) == []
  {
    assert [r][1..] == [];
  }

  function Written(results: seq<ExecResult>): (texts: seq<string>)
    ensures |texts| == |results|
    ensures forall i :: 0 <= i < |texts| ==> texts[i] == Write(ResultValue(results[i]))
  {
    seq(|results|, i requires 0 <= i < |results| => Write(ResultValue(results[i])))
  }

  lemma WrittenAppend(a: seq<ExecResult>, b: seq<ExecResult>)
    ensures Written(a + b) == Written(a) + Written(b)
  {
    hide Write;
  }

  /** Under any executor a stop or a status request is answered at once, and nothing else is. */
  lemma StatusStep<E>(b: Board<E>, d: Device<E>, event: Event)
    ensures Texts(OP_STATUS_RESPONSE, Step(b, d, event).out) == AnswerOn(b, d, event)
  {
  }

  /** The status replies written are exactly the answers to the requests, one each and in order. */
  lemma {:induction false} StatusReplies<E>(b: Board<E>, d: Device<E>, events: seq<Event>)
    ensures Texts(OP_STATUS_RESPONSE, Serve(b, d, events).out) == Answers(b, d, events)
    decreases |events|
  {
    hide Step, AnswerOn, Texts;
    if events == [] {
      TextsOne(OP_STATUS_RESPONSE, Reply(0, []));
    } else {
      var front := events[..|events| - 1];
      StatusReplies(b, d, front);
      var mid := Serve(b, d, front);
      StatusStep(b, mid.device, events[|events| - 1]);
      TextsAppend(OP_STATUS_RESPONSE, mid.out, Step(b, mid.device, events[|events| - 1]).out);
    }
  }

  /** One event under a blocking executor: a push or swap is answered by its own outcome. */
  lemma BlockingStep<E(!new)>(b: Board<E>, d: Device<E>, event: Event, quiet: E -> bool)
    requires Blocking(b.executor, quiet) && quiet(d.exec)
    requires event.Arrived? ==> HostSends(event.frame)
    ensures quiet(Step(b, d, event).device.exec)
    ensures Texts(OP_EXEC_RESULT, Step(b, d, event).out) == Written(OutcomesOn(b, d, event))
  {
    hide Write, Refusal, StatusJson, UnknownOpcodeText, Texts, SetParam, Permitted;
    var out := Step(b, d, event).out;
    if out != [] {
      assert out == [out[0]];
      TextsOne(OP_EXEC_RESULT, out[0]);
    } else {
      TextsOne(OP_EXEC_RESULT, Reply(0, []));
    }
  }

  ghost predicate FromHost(events: seq<Event>) {
    forall i :: 0 <= i < |events| && events[i].Arrived? ==> HostSends(events[i].frame)
  }

  /**
    Under a blocking executor the results written are exactly the outcomes of the pushes and swaps, one each
    and in order, wherever idle gaps fall.
  */
  lemma {:induction false} BlockingReplies<E(!new)>(b: Board<E>, d: Device<E>, events: seq<Event>, quiet: E -> bool)
    requires Blocking(b.executor, quiet) && quiet(d.exec) && FromHost(events)
    ensures quiet(Serve(b, d, events).device.exec)
    ensures Texts(OP_EXEC_RESULT, Serve(b, d, events).out) == Written(Outcomes(b, d, events))
    decreases |events|
  {
    hide Step, Blocking, OutcomesOn, Write, Texts;
    if events == [] {
      TextsOne(OP_EXEC_RESULT, Reply(0, []));
    } else {
      var front, last := events[..|events| - 1], events[|events| - 1];
      BlockingReplies(b, d, front, quiet);
      var mid := Serve(b, d, front);
      BlockingStep(b, mid.device, last, quiet);
      TextsAppend(OP_EXEC_RESULT, mid.out, Step(b, mid.device, last).out);
      WrittenAppend(Outcomes(b, d, front), OutcomesOn(b, mid.device, last));
    }
  }

  function FramesOf(events: seq<Event>): seq<Frame> {
    if events == [] then []
    else FramesOf(events[..|events| - 1]) + (if events[|events| - 1].Arrived? then [events[|events| - 1].frame] else [])
  }

  function Count(frames: seq<Frame>, kind: Frame -> bool): nat {
    if frames == [] then 0 else Count(frames[..|frames| - 1], kind) + (if kind(frames[|frames| - 1]) then 1 else 0)
  }

  lemma {:induction false} OutcomeCounts<E>(b: Board<E>, d: Device<E>, events: seq<Event>)
    ensures |Outcomes(b, d, events)| == Count(FramesOf(events), IsLoadFrame)
    ensures |Answers(b, d, events)| == Count(FramesOf(events), IsStatusRequest)
    decreases |events|
  {
    if events != [] {
      hide Step, Outcome, StatusJson;
      OutcomeCounts(b, d, events[..|events| - 1]);
      var last := events[|events| - 1];
      var front := FramesOf(events[..|events| - 1]);
      if last.Arrived? {
        assert (front + [last.frame])[..|front|] == front;
      } else {
        assert front + [] == front;
      }
    }
  }

  // ---------- the single-core executor ----------

  datatype SingleCore<H> = SingleCore(hardware: Option<H>, status: ExecStatus, lastResult: Option<ExecResult>)

  /** `SingleCoreExecutor` over any way of running a module: the logs it left, or the text of its error. */
  function SingleCoreExecutor<H(!new)>(run: (H, seq<u32>, seq<u8>) -> (H, Result<seq<string>, string>)): Executor<SingleCore<H>> {
    Executor(
      (e: SingleCore<H>, slots: seq<u32>, code: seq<u8>) =>
        match e.hardware
        case None => SingleCore(None, Completed, Some(ExecResult(false, [], Some("no hardware available"))))
        case Some(h) =>
          var (after, r) := run(h, slots, code);
          SingleCore(Some(after), Completed, Some(RunResult(r))),
      (e: SingleCore<H>) =>
        if e.status == Completed then (SingleCore(e.hardware, Idle, None), e.lastResult) else (e, None),
      (e: SingleCore<H>) => SingleCore(e.hardware, Stopped, e.lastResult),
      (e: SingleCore<H>) => e.status,
      (e: SingleCore<H>) => e.status == Running,
      (e: SingleCore<H>, slots: seq<u32>) => e)
  }

  function RunResult(r: Result<seq<string>, string>): ExecResult {
    match r
    case Ok(logs) => ExecResult(true, logs, None)
    case Err(e) => ExecResult(false, [], Some(e))
  }

  /** The single-core executor keeps the blocking contract whenever no unread result is waiting. */
  lemma SingleCoreBlocks<H(!new)>(run: (H, seq<u32>, seq<u8>) -> (H, Result<seq<string>, string>))
    ensures Blocking(SingleCoreExecutor(run), (e: SingleCore<H>) => e.status != Completed)
    ensures Still(SingleCoreExecutor(run))
  {
  }

  /** On a single core, the outcome of a permitted push is what running its module on the slots gave. */
  lemma SingleCoreOutcome<H(!new)>(b: Board<SingleCore<H>>, d: Device<SingleCore<H>>, f: Frame,
                                   run: (H, seq<u32>, seq<u8>) -> (H, Result<seq<string>, string>))
    requires b.executor == SingleCoreExecutor(run)
    requires Permitted(b.checks, b.policy, f)
    ensures Outcome(b, d, f) ==
      match d.exec.hardware
      case None => ExecResult(false, [], Some("no hardware available"))
      case Some(h) =>
        match run(h, d.slots, Carried(f)).1
        case Ok(logs) => ExecResult(true, logs, None)
        case Err(e) => ExecResult(false, [], Some(e))
  {
    hide Permitted, Carried;
  }
}
