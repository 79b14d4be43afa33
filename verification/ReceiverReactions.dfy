/**
  What single frames do to the receiver, by opcode byte and in literal texts, and what the executor has become after
  any stream: the calls the policy requires, made on it with the slots of the moment.
*/
module ReceiverReactions {
  import opened Bits
  import opened Wrappers
  import opened Json
  import opened Results
  import opened Frames
  import opened Receiver
  import opened ReceiverSafety

  // ---------- the executor is what its calls make it ----------

  function Called<E>(x: Executor<E>, e: E, slots: seq<u32>, call: Call): E {
    match call
    case Submit(code) => x.submit(e, slots, code)
    case Stop => x.stop(e)
    case Poll => x.poll(e).0
  }

  function CalledAll<E>(x: Executor<E>, e: E, slots: seq<u32>, calls: seq<Call>): E
    decreases |calls|
  {
    if calls == [] then e else CalledAll(x, Called(x, e, slots, calls[0]), slots, calls[1..])
  }

  function SlotsAfter(events: seq<Event>, slots: seq<u32>): (after: seq<u32>)
    ensures |after| == |slots|
  {
    seq(|slots|, i requires 0 <= i < |slots| => LastSet(events, i, slots[i]))
  }

  /** Each event lets time pass, and then makes exactly the calls the policy requires. */
  function Replay<E>(b: Board<E>, e: E, slots: seq<u32>, events: seq<Event>): E
    decreases |events|
  {
    if events == [] then e
    else
      var front, last := events[..|events| - 1], events[|events| - 1];
      var now := SlotsAfter(front, slots);
      CalledAll(b.executor, b.executor.tick(Replay(b, e, slots, front), now), now, CallsOn(b, last))
  }

  lemma SlotsAreLastSet<E>(b: Board<E>, d: Device<E>, events: seq<Event>)
    ensures Serve(b, d, events).device.slots == SlotsAfter(events, d.slots)
  {
    hide Serve, LastSet;
    if |d.slots| > 0 { SlotsHoldLastSet(b, d, events, 0); } else { NoSlots(b, d, events); }
    forall i | 0 <= i < |d.slots|
      ensures Serve(b, d, events).device.slots[i] == LastSet(events, i, d.slots[i])
    {
      SlotsHoldLastSet(b, d, events, i);
    }
  }

  lemma {:induction false} NoSlots<E>(b: Board<E>, d: Device<E>, events: seq<Event>)
    ensures |Serve(b, d, events).device.slots| == |d.slots|
    decreases |events|
  {
    if events != [] {
      hide FromBytes32, Permitted, Write, Refusal, UnknownOpcodeText, StatusJson;
      NoSlots(b, d, events[..|events| - 1]);
    }
  }

  lemma StepReplays<E>(b: Board<E>, d: Device<E>, event: Event)
    ensures Step(b, d, event).device.exec
         == CalledAll(b.executor, b.executor.tick(d.exec, d.slots), d.slots, CallsOn(b, event))
  {
    hide Permitted, Write, Refusal, UnknownOpcodeText, StatusJson, SetParam, Carried;
    var x, e := b.executor, b.executor.tick(d.exec, d.slots);
    OnlyLoadsPermitted(b, event);
    match event
    case Gap => CallOne(x, e, d.slots, Poll, []);
    case Arrived(f) =>
      if Permitted(b.checks, b.policy, f) {
        var start := if IsSwap(f.opcode) then x.stop(e) else e;
        CallOne(x, e, d.slots, Stop, [Submit(Carried(f)), Poll]);
        CallOne(x, start, d.slots, Submit(Carried(f)), [Poll]);
        CallOne(x, x.submit(start, d.slots, Carried(f)), d.slots, Poll, []);
        assert [Stop] + [Submit(Carried(f)), Poll] == [Stop, Submit(Carried(f)), Poll];
        assert [] + [Submit(Carried(f)), Poll] == [Submit(Carried(f)), Poll];
      } else {
        CallOne(x, e, d.slots, Stop, []);
      }
  }

  lemma OnlyLoadsPermitted<E>(b: Board<E>, event: Event)
    ensures event.Arrived? && Permitted(b.checks, b.policy, event.frame) ==> IsLoad(event.frame.opcode)
  {
  }

  lemma CallOne<E>(x: Executor<E>, e: E, slots: seq<u32>, call: Call, more: seq<Call>)
    ensures CalledAll(x, e, slots, [call] + more) == CalledAll(x, Called(x, e, slots, call), slots, more)
    ensures CalledAll(x, e, slots, []) == e
    ensures more == [] ==> CalledAll(x, e, slots, [call]) == Called(x, e, slots, call)
  {
    hide Called;
    assert ([call] + more)[1..] == more;
    if more == [] { assert [call] + more == [call]; }
  }

  /** After any stream the executor is what the required calls make of it, each with the slots of its moment. */
  lemma {:induction false} ExecutorIsReplay<E>(b: Board<E>, d: Device<E>, events: seq<Event>)
    ensures Serve(b, d, events).device.exec == Replay(b, d.exec, d.slots, events)
    decreases |events|
  {
    hide Step, CallsOn, CalledAll, SlotsAfter;
    if events != [] {
      var front := events[..|events| - 1];
      ExecutorIsReplay(b, d, front);
      SlotsAreLastSet(b, d, front);
      StepReplays(b, Serve(b, d, front).device, events[|events| - 1]);
    }
  }

  /** A status request right behind a stop is answered with the status of the stopped executor. */
  lemma StatusAfterStop<E>(b: Board<E>, d: Device<E>, p: seq<u8>, q: seq<u8>)
    ensures var x := b.executor;
      var stopped := x.tick(x.stop(x.tick(d.exec, d.slots)), d.slots);
      Serve(b, d, [Arrived(Frame(0x05, p)), Arrived(Frame(0x06, q))]).out
        == [Reply(0x07, "{\"stopped\":true}"), Reply(0x07, StatusJson(x.status(stopped), x.running(stopped)))]
  {
    hide Permitted, Write, Refusal, UnknownOpcodeText, StatusJson;
    var events := [Arrived(Frame(0x05, p)), Arrived(Frame(0x06, q))];
    ServeOneMore(b, d, events, 0);
    ServeOneMore(b, d, events, 1);
    assert events[..2] == events && events[..0] == [];
  }

  // ---------- opcodes ----------

  /** The four loading opcodes, which of them stop first, and which carry signatures. */
  lemma LoadingOpcodes(opcode: u8)
    ensures IsLoad(opcode) <==> opcode in {0x02, 0x09, 0x0A, 0x0B}
    ensures IsSwap(opcode) <==> opcode in {0x09, 0x0B}
    ensures IsSigned(opcode) <==> opcode in {0x0A, 0x0B}
  {
  }

  /** A discovery frame is answered with the manifest and changes nothing. */
  lemma DiscoveryAnswered<E>(b: Board<E>, d: Device<E>, payload: seq<u8>)
    ensures Step(b, d, Arrived(Frame(0x01, payload))) == Turn(Ticked(b, d), [Reply(0x01, b.manifest)])
  {
    hide Permitted, Write, Refusal, UnknownOpcodeText, StatusJson, SetParam;
  }

  /** Any opcode without a meaning is answered by a result naming it in two hexadecimal digits, and changes nothing. */
  lemma UnknownOpcodeAnswered<E>(b: Board<E>, d: Device<E>, f: Frame) returns (high: char, low: char)
    requires f.opcode !in {0x01, 0x02, 0x05, 0x06, 0x08, 0x09, 0x0A, 0x0B}
    ensures Step(b, d, Arrived(f)) == Turn(Ticked(b, d), [Reply(0x03, "{\"error\":\"unknown opcode 0x" + [high, low] + "\"}")])
    ensures HexValue(high).Some? && HexValue(low).Some? && 16 * HexValue(high).value + HexValue(low).value == f.opcode as int
    ensures high !in "ABCDEF" && low !in "ABCDEF"
  {
    hide Permitted, Write, Refusal, StatusJson, SetParam;
    high, low := HexDigit(f.opcode / 16), HexDigit(f.opcode % 16);
  }

  /** The host takes such an answer for a failed result with that message. */
  lemma UnknownOpcodeSeen(opcode: u8)
    ensures ParseResult(UnknownOpcodeText(opcode))
         == Some(HostResult(Bool(false), Arr([]), Str("unknown opcode 0x" + [HexDigit(opcode / 16), HexDigit(opcode % 16)])))
  {
    hide Write, Escape, Loads, HexDigit, Get, UnknownOpcodeText;
    var digits := [HexDigit(opcode / 16), HexDigit(opcode % 16)];
    var v := Obj([Member("error", Str("unknown opcode 0x" + digits))]);
    UnknownOpcodeIsWritten(opcode);
    LoadsWritten(v);
    GetOfOne("error", Str("unknown opcode 0x" + digits));
  }

  lemma GetOfOne(k: string, v: Value)
    ensures Get([Member(k, v)], k, Null) == v
    ensures k == "error" ==> Get([Member(k, v)], "ok", Bool(false)) == Bool(false) && Get([Member(k, v)], "logs", Arr([])) == Arr([])
  {
    var ms := [Member(k, v)];
    assert ms[..0] == [];
    assert Get(ms[..0], "ok", Bool(false)) == Bool(false) && Get(ms[..0], "logs", Arr([])) == Arr([]);
  }

  lemma UnknownOpcodeIsWritten(opcode: u8)
    ensures UnknownOpcodeText(opcode)
         == Write(Obj([Member("error", Str("unknown opcode 0x" + [HexDigit(opcode / 16), HexDigit(opcode % 16)]))]))
  {
    hide Write, Escape, HexDigit;
    var intro, digits := "unknown opcode 0x", [HexDigit(opcode / 16), HexDigit(opcode % 16)];
    var text := intro + digits;
    PlainDigits(opcode);
    PlainIntro();
    assert Plain(text);
    EscapePlain(text);
    WriteShapes([], text);
    PlainError();
    WriteOne("error", Str(text));
    var head := "{" + "\"" + "error" + "\":";
    assert head + "\"" + intro == "{\"error\":\"unknown opcode 0x";
    assert "\"}" == "\"" + "}";
    Assoc(head, "\"", text + "\"");
    Assoc(head + "\"", intro, digits);
    Assoc(head + "\"", text, "\"");
    Assoc(head + "\"" + text, "\"", "}");
  }

  lemma PlainDigits(opcode: u8)
    ensures Plain([HexDigit(opcode / 16), HexDigit(opcode % 16)])
  {
  }

  lemma PlainIntro()
    ensures Plain("unknown opcode 0x")
  {
  }

  lemma PlainError()
    ensures Plain("error")
  {
  }

  // ---------- reasons for refusal ----------

  /** A signed module is refused for the first of these checks that fails; the text is the host's error. */
  lemma SignedRefusal(c: Checks, policy: Policy, f: Frame)
    requires f.opcode == 0x0A || f.opcode == 0x0B
    ensures !Permitted(c, policy, f) ==>
      Refusal(c, policy, f) ==
        if policy.trustedKey.None? then "no trusted key provisioned"
        else if !c.signing then "signature rejected: " + "signing not supported in this build"
        else if |f.payload| <= 64 then "signature rejected: " + "signed payload too short"
        else if !c.keyFormed(policy.trustedKey.value) then "signature rejected: " + "malformed trusted key"
        else if !c.signatureFormed(f.payload[..64]) then "signature rejected: " + "malformed signature"
        else if !c.verifies(policy.trustedKey.value, f.payload[64..], f.payload[..64]) then
          "signature rejected: " + "signature verification failed"
        else "rejected imports: " + JoinNames(c.imports(f.payload[64..]).rejected)
  {
    hide JoinNames;
  }

  /** An unsigned one is refused if the policy wants signatures, and otherwise for its imports. */
  lemma UnsignedRefusal(c: Checks, policy: Policy, f: Frame)
    requires f.opcode == 0x02 || f.opcode == 0x09
    ensures Permitted(c, policy, f) <==> !policy.requireSigned && c.imports(f.payload).valid
    ensures Refusal(c, policy, f) ==
      if policy.requireSigned then "unsigned module rejected: " + "policy requires signed bytecode"
      else "rejected imports: " + JoinNames(c.imports(f.payload).rejected)
  {
    hide JoinNames;
  }

  /** A signed module is permitted exactly if every check passes, and it is what lies behind the first 64 bytes. */
  lemma SignedPermitted(c: Checks, policy: Policy, f: Frame)
    requires f.opcode == 0x0A || f.opcode == 0x0B
    ensures Permitted(c, policy, f) <==>
      && policy.trustedKey.Some? && c.signing && |f.payload| > 64
      && c.keyFormed(policy.trustedKey.value) && c.signatureFormed(f.payload[..64])
      && c.verifies(policy.trustedKey.value, f.payload[64..], f.payload[..64])
      && c.imports(f.payload[64..]).valid
    ensures Permitted(c, policy, f) ==> Carried(f) == f.payload[64..]
  {
  }

  // ---------- the single-core executor ----------

  /** The hardware after a stream: each permitted push is run on what the one before left. */
  function HardwareAfter<H>(b: Board<SingleCore<H>>, h: H, slots: seq<u32>, events: seq<Event>,
                            run: (H, seq<u32>, seq<u8>) -> (H, Result<seq<string>, string>)): H
    decreases |events|
  {
    if events == [] then h
    else
      var front, last := events[..|events| - 1], events[|events| - 1];
      var before := HardwareAfter(b, h, slots, front, run);
      if last.Arrived? && Permitted(b.checks, b.policy, last.frame)
      then run(before, SlotsAfter(front, slots), Carried(last.frame)).0 else before
  }

  lemma StepKeepsHardware<H(!new)>(b: Board<SingleCore<H>>, d: Device<SingleCore<H>>, event: Event,
                                   run: (H, seq<u32>, seq<u8>) -> (H, Result<seq<string>, string>))
    requires b.executor == SingleCoreExecutor(run) && d.exec.hardware.Some?
    ensures Step(b, d, event).device.exec.hardware ==
      if event.Arrived? && Permitted(b.checks, b.policy, event.frame)
      then Some(run(d.exec.hardware.value, d.slots, Carried(event.frame)).0) else d.exec.hardware
  {
    hide Permitted, Write, Refusal, UnknownOpcodeText, StatusJson, SetParam, Carried;
    OnlyLoadsPermitted(b, event);
  }

  /** The hardware always comes back, with everything the modules run so far have done to it. */
  lemma {:induction false} HardwareIsKept<H(!new)>(b: Board<SingleCore<H>>, d: Device<SingleCore<H>>, events: seq<Event>,
                                                   run: (H, seq<u32>, seq<u8>) -> (H, Result<seq<string>, string>))
    requires b.executor == SingleCoreExecutor(run) && d.exec.hardware.Some?
    ensures Serve(b, d, events).device.exec.hardware == Some(HardwareAfter(b, d.exec.hardware.value, d.slots, events, run))
    decreases |events|
  {
    hide Step, SlotsAfter, Permitted, Carried, SingleCoreExecutor;
    if events != [] {
      var front := events[..|events| - 1];
      HardwareIsKept(b, d, front, run);
      SlotsAreLastSet(b, d, front);
      StepKeepsHardware(b, Serve(b, d, front).device, events[|events| - 1], run);
    }
  }

  /** After any stream, a permitted push is answered by running its module on that hardware and on the slots last set. */
  lemma PushRunsOnKeptHardware<H(!new)>(b: Board<SingleCore<H>>, d: Device<SingleCore<H>>, front: seq<Event>, f: Frame,
                                        run: (H, seq<u32>, seq<u8>) -> (H, Result<seq<string>, string>))
    requires b.executor == SingleCoreExecutor(run) && d.exec.hardware.Some?
    requires Permitted(b.checks, b.policy, f)
    ensures var h := HardwareAfter(b, d.exec.hardware.value, d.slots, front, run);
      Step(b, Serve(b, d, front).device, Arrived(f)).out
        == [ResultReply(match run(h, SlotsAfter(front, d.slots), Carried(f)).1
                        case Ok(logs) => ExecResult(true, logs, None)
                        case Err(e) => ExecResult(false, [], Some(e)))]
  {
    hide Permitted, Carried, Serve, HardwareAfter, SlotsAfter, Write, Refusal;
    HardwareIsKept(b, d, front, run);
    SlotsAreLastSet(b, d, front);
    OnlyLoadsPermitted(b, Arrived(f));
  }

  /** Between frames the single core is never running: it is idle after a permitted push and stopped after a stop. */
  lemma SingleCoreStatus<H(!new)>(b: Board<SingleCore<H>>, d: Device<SingleCore<H>>, f: Frame,
                                  run: (H, seq<u32>, seq<u8>) -> (H, Result<seq<string>, string>))
    requires b.executor == SingleCoreExecutor(run)
    ensures var x, after := b.executor, Step(b, d, Arrived(f)).device.exec;
      && (Permitted(b.checks, b.policy, f) ==> x.status(after) == Idle && !x.running(after))
      && (f.opcode == 0x05 ==> x.status(after) == Stopped && !x.running(after))
      && (!Permitted(b.checks, b.policy, f) && f.opcode != 0x05 ==> x.status(after) == x.status(d.exec) && x.running(after) == x.running(d.exec))
  {
    hide Permitted, Carried, Write, Refusal, UnknownOpcodeText, StatusJson, SetParam;
    OnlyLoadsPermitted(b, Arrived(f));
  }
}
