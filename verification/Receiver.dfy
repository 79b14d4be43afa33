/**
  The receiver (`receiver/src/lib.rs`, `receiver/src/engine/signing.rs`, `receiver/src/engine/executor.rs`):
  the authorisation gate, the dispatch loop over any executor, and the single-core executor.
*/
module Receiver {
  import opened Bits
  import opened Wrappers
  import opened Json
  import opened Results
  import opened Frames

  const OP_DISCOVERY: u8 := 0x01
  const OP_BYTECODE_PUSH: u8 := 0x02
  const OP_EXEC_RESULT: u8 := 0x03
  const OP_STOP: u8 := 0x05
  const OP_QUERY_STATUS: u8 := 0x06
  const OP_STATUS_RESPONSE: u8 := 0x07
  const OP_SET_PARAM: u8 := 0x08
  const OP_HOT_SWAP: u8 := 0x09
  const OP_SIGNED_PUSH: u8 := 0x0A
  const OP_SIGNED_SWAP: u8 := 0x0B

  const SIG_LEN := 64

  /** A frame to the host; its payload is the text whose UTF-8 form is sent. */
  datatype Reply = Reply(opcode: u8, text: string)

  predicate IsSigned(opcode: u8) {
    opcode == OP_SIGNED_PUSH || opcode == OP_SIGNED_SWAP
  }

  predicate IsSwap(opcode: u8) {
    opcode == OP_HOT_SWAP || opcode == OP_SIGNED_SWAP
  }

  predicate IsLoad(opcode: u8) {
    opcode == OP_BYTECODE_PUSH || opcode == OP_SIGNED_PUSH || IsSwap(opcode)
  }

  // ---------- the authorisation gate ----------

  datatype Validation = Validation(valid: bool, rejected: seq<string>)

  /** The cryptography and the import scan, as the gate sees them. */
  datatype Checks = Checks(
    signing: bool,
    keyFormed: seq<u8> -> bool,
    signatureFormed: seq<u8> -> bool,
    verifies: (seq<u8>, seq<u8>, seq<u8>) -> bool,
    imports: seq<u8> -> Validation)

  datatype Policy = Policy(trustedKey: Option<seq<u8>>, requireSigned: bool)

  /** `verify_signed`: the module behind a good signature, or what is wrong. */
  function VerifySigned(c: Checks, payload: seq<u8>, key: seq<u8>): Result<seq<u8>, string> {
    if !c.signing then Err("signing not supported in this build")
    else if |payload| <= SIG_LEN then Err("signed payload too short")
    else if !c.keyFormed(key) then Err("malformed trusted key")
    else if !c.signatureFormed(payload[..SIG_LEN]) then Err("malformed signature")
    else if !c.verifies(key, payload[SIG_LEN..], payload[..SIG_LEN]) then Err("signature verification failed")
    else Ok(payload[SIG_LEN..])
  }

  const NO_KEY: string := "no trusted key provisioned"
  const UNSIGNED: string := "unsigned module rejected: " + "policy requires signed bytecode"

  /** The format string of a rejection: the reason is not escaped. */
  function ErrorText(reason: string): string {
    "{\"ok\":false,\"error\":\"" + reason + "\"}"
  }

  /** `authorize_module`: the module to run, or the text of the rejection. */
  function AuthorizeModule(payload: seq<u8>, signed: bool, policy: Policy, c: Checks): Result<seq<u8>, string> {
    var wasm :=
      if signed then
        match policy.trustedKey
        case None => Err(ErrorText(NO_KEY))
        case Some(key) =>
          match VerifySigned(c, payload, key)
          case Ok(w) => Ok(w)
          case Err(e) => Err(ErrorText("signature rejected: " + e))
      else if policy.requireSigned then
        Err(ErrorText(UNSIGNED))
      else Ok(payload);
    match wasm
    case Err(text) => Err(text)
    case Ok(w) =>
      var v := c.imports(w);
      if v.valid then Ok(w) else Err(RejectedImportsJson(v.rejected))
  }

  /** The module a loading frame carries, once its signature is set aside. */
  function Carried(f: Frame): seq<u8> {
    if !IsSigned(f.opcode) then f.payload
    else if |f.payload| <= SIG_LEN then []
    else f.payload[SIG_LEN..]
  }

  /** The signature check as a statement: a trusted key exists and verifies the module under the leading 64 bytes. */
  predicate SignedByTrustedKey(c: Checks, policy: Policy, f: Frame) {
    && c.signing
    && policy.trustedKey.Some?
    && |f.payload| > SIG_LEN
    && c.keyFormed(policy.trustedKey.value)
    && c.signatureFormed(f.payload[..SIG_LEN])
    && c.verifies(policy.trustedKey.value, f.payload[SIG_LEN..], f.payload[..SIG_LEN])
  }

  /** The policy as a statement about a frame. */
  predicate Permitted(c: Checks, policy: Policy, f: Frame) {
    && IsLoad(f.opcode)
    && (if IsSigned(f.opcode) then SignedByTrustedKey(c, policy, f) else !policy.requireSigned)
    && c.imports(Carried(f)).valid
  }

  /** Why a frame that is not permitted is turned down: the first check that fails. */
  function Refusal(c: Checks, policy: Policy, f: Frame): string {
    if IsSigned(f.opcode) then
      if policy.trustedKey.None? then NO_KEY
      else
        match VerifySigned(c, f.payload, policy.trustedKey.value)
        case Err(e) => "signature rejected: " + e
        case Ok(w) => "rejected imports: " + JoinNames(c.imports(w).rejected)
    else if policy.requireSigned then UNSIGNED
    else "rejected imports: " + JoinNames(c.imports(f.payload).rejected)
  }

  /** The gate lets through exactly the permitted frames, and hands on exactly the module they carry. */
  lemma AuthorizesExactlyPermitted(c: Checks, policy: Policy, f: Frame)
    requires IsLoad(f.opcode)
    ensures Permitted(c, policy, f) ==>
      AuthorizeModule(f.payload, IsSigned(f.opcode), policy, c) == Ok(Carried(f))
    ensures !Permitted(c, policy, f) ==>
      AuthorizeModule(f.payload, IsSigned(f.opcode), policy, c) == Err(Write(ErrorValue(Refusal(c, policy, f))))
  {
    hide Write, ErrorValue, RejectedImportsJson, JoinNames;
    FixedRefusals();
    if IsSigned(f.opcode) && policy.trustedKey.Some? {
      var r := VerifySigned(c, f.payload, policy.trustedKey.value);
      if r.Err? {
        VerifyErrors(c, f.payload, policy.trustedKey.value);
        SignatureRejected(r.error);
      }
    }
  }

  lemma FixedRefusals()
    ensures Write(ErrorValue(NO_KEY)) == ErrorText(NO_KEY)
    ensures Write(ErrorValue(UNSIGNED)) == ErrorText(UNSIGNED)
  {
    hide Write, ErrorValue, Plain;
    PlainPolicy();
    WritePlainError(NO_KEY);
    WritePlainError(UNSIGNED);
  }

  lemma PlainPolicy()
    ensures Plain(NO_KEY) && Plain(UNSIGNED)
  {
  }

  lemma VerifyErrors(c: Checks, payload: seq<u8>, key: seq<u8>)
    requires VerifySigned(c, payload, key).Err?
    ensures Plain(VerifySigned(c, payload, key).error)
  {
    hide Plain;
    PlainPayload();
    PlainFormed();
    PlainVerdict();
  }

  lemma PlainPayload()
    ensures Plain("signing not supported in this build") && Plain("signed payload too short")
  {
  }

  lemma PlainFormed()
    ensures Plain("malformed trusted key") && Plain("malformed signature")
  {
  }

  lemma PlainVerdict()
    ensures Plain("signature verification failed")
  {
  }

  /** The signature errors need no escaping, so the unescaped format string is the written error value. */
  lemma SignatureRejected(e: string)
    requires Plain(e)
    ensures Write(ErrorValue("signature rejected: " + e)) == ErrorText("signature rejected: " + e)
  {
    hide Write, ErrorValue;
    assert Plain("signature rejected: ");
    WritePlainError("signature rejected: " + e);
  }

  // ---------- executors ----------

  /**
    Any executor strategy. `tick` is what it does on its own between two turns of the loop (a worker thread,
    the other core); running modules read the parameter slots.
  */
  datatype Executor<!E> = Executor(
    submit: (E, seq<u32>, seq<u8>) -> E,
    poll: E -> (E, Option<ExecResult>),
    stop: E -> E,
    status: E -> ExecStatus,
    running: E -> bool,
    tick: (E, seq<u32>) -> E)

  datatype Call = Submit(code: seq<u8>) | Stop | Poll

  /** The receiver's state: the executor, the eight parameter slots, and every call made on the executor. */
  datatype Device<E> = Device(exec: E, slots: seq<u32>, calls: seq<Call>)

  datatype Board<!E> = Board(executor: Executor<E>, checks: Checks, policy: Policy, manifest: string)

  // ---------- the dispatch loop ----------

  /** What `read_frame` returns: a frame, or an error on an idle gap. */
  datatype Event = Arrived(frame: Frame) | Gap

  datatype Turn<E> = Turn(device: Device<E>, out: seq<Reply>)

  function ResultReply(r: ExecResult): Reply {
    Reply(OP_EXEC_RESULT, Write(ResultValue(r)))
  }

  function UnknownOpcodeText(opcode: u8): string {
    "{\"error\":\"unknown opcode 0x" + [HexDigit(opcode / 16), HexDigit(opcode % 16)] + "\"}"
  }

  function Polled<E>(b: Board<E>, d: Device<E>): Turn<E> {
    var (e, r) := b.executor.poll(d.exec);
    Turn(d.(exec := e, calls := d.calls + [Poll]), if r.Some? then [ResultReply(r.value)] else [])
  }

  function Submitted<E>(b: Board<E>, d: Device<E>, code: seq<u8>): Device<E> {
    d.(exec := b.executor.submit(d.exec, d.slots, code), calls := d.calls + [Submit(code)])
  }

  function Halted<E>(b: Board<E>, d: Device<E>): Device<E> {
    d.(exec := b.executor.stop(d.exec), calls := d.calls + [Stop])
  }

  function Ticked<E>(b: Board<E>, d: Device<E>): Device<E> {
    d.(exec := b.executor.tick(d.exec, d.slots))
  }

  /** The reaction to one event, stated through the policy rather than through the gate's code. */
  function Handle<E>(b: Board<E>, d: Device<E>, event: Event): Turn<E> {
    match event
    case Gap => Polled(b, d)
    case Arrived(f) =>
      if IsLoad(f.opcode) then
        if Permitted(b.checks, b.policy, f)
        then Polled(b, Submitted(b, if IsSwap(f.opcode) then Halted(b, d) else d, Carried(f)))
        else Turn(d, [Reply(OP_EXEC_RESULT, Write(ErrorValue(Refusal(b.checks, b.policy, f))))])
      else if f.opcode == OP_DISCOVERY then Turn(d, [Reply(OP_DISCOVERY, b.manifest)])
      else if f.opcode == OP_STOP then Turn(Halted(b, d), [Reply(OP_STATUS_RESPONSE, STOPPED_JSON)])
      else if f.opcode == OP_QUERY_STATUS then
        var text := StatusJson(b.executor.status(d.exec), b.executor.running(d.exec));
        Turn(d, [Reply(OP_STATUS_RESPONSE, text)])
      else if f.opcode == OP_SET_PARAM then Turn(d.(slots := SetParam(d.slots, f.payload)), [])
      else Turn(d, [Reply(OP_EXEC_RESULT, UnknownOpcodeText(f.opcode))])
  }

  /** `OP_SET_PARAM`: two big-endian words; short payloads and slots out of range change nothing. */
  function SetParam(slots: seq<u32>, payload: seq<u8>): (after: seq<u32>)
    ensures |after| == |slots|
  {
    if |payload| < 8 then slots
    else
      var slot, value := FromBytes32(payload[..4]), FromBytes32(payload[4..8]);
      if slot < |slots| then slots[slot := value] else slots
  }

  function Step<E>(b: Board<E>, d: Device<E>, event: Event): Turn<E> {
    Handle(b, Ticked(b, d), event)
  }

  function Serve<E>(b: Board<E>, d: Device<E>, events: seq<Event>): Turn<E>
    decreases |events|
  {
    if events == [] then Turn(d, [])
    else
      var front := Serve(b, d, events[..|events| - 1]);
      var last := Step(b, front.device, events[|events| - 1]);
      Turn(last.device, front.out + last.out)
  }

  /** The link as the loop uses it: what arrives and what was written. */
  class Transport {
    var incoming: seq<Event>
    var written: seq<Reply>

    constructor (events: seq<Event>)
      ensures incoming == events && written == []
    {
      incoming, written := events, [];
    }

    method ReadFrame() returns (r: Result<Frame, ()>)
      requires incoming != []
      modifies this`incoming
      ensures incoming == old(incoming)[1..]
      ensures r == if old(incoming)[0].Gap? then Err(()) else Ok(old(incoming)[0].frame)
    {
      r := if incoming[0].Gap? then Err(()) else Ok(incoming[0].frame);
      incoming := incoming[1..];
    }

    method WriteFrame(reply: Reply)
      modifies this`written
      ensures written == old(written) + [reply]
    {
      written := written + [reply];
    }
  }

  /** `if let Some(result) = exec.poll_result() { … }` */
  method PollAndReply<E>(t: Transport, b: Board<E>, d: Device<E>) returns (after: Device<E>)
    modifies t`written
    ensures after == Polled(b, d).device
    ensures t.written == old(t.written) + Polled(b, d).out
  {
    hide Write;
    var (e, r) := b.executor.poll(d.exec);
    after := d.(exec := e, calls := d.calls + [Poll]);
    match r
    case Some(result) =>
      var json := ExecResultToJson(result);
      t.WriteFrame(Reply(OP_EXEC_RESULT, json));
    case None =>
      assert t.written + [] == t.written;
  }

  /** The push and swap arms of the dispatch. */
  method LoadModule<E>(t: Transport, b: Board<E>, d: Device<E>, f: Frame) returns (after: Device<E>)
    requires IsLoad(f.opcode)
    modifies t`written
    ensures after == Handle(b, d, Arrived(f)).device
    ensures t.written == old(t.written) + Handle(b, d, Arrived(f)).out
  {
    hide AuthorizeModule, Write, Permitted, Refusal, Polled;
    AuthorizesExactlyPermitted(b.checks, b.policy, f);
    match AuthorizeModule(f.payload, IsSigned(f.opcode), b.policy, b.checks)
    case Err(text) =>
      t.WriteFrame(Reply(OP_EXEC_RESULT, text));
      after := d;
    case Ok(wasm) =>
      after := if IsSwap(f.opcode) then Halted(b, d) else d;
      after := Submitted(b, after, wasm);
      after := PollAndReply(t, b, after);
  }

  method SetSharedParam(slots: seq<u32>, payload: seq<u8>) returns (after: seq<u32>)
    ensures after == SetParam(slots, payload)
  {
    after := slots;
    if |payload| >= 8 {
      var slot, value := FromBytes32(payload[..4]), FromBytes32(payload[4..8]);
      if slot < |after| { after := after[slot := value]; }
    }
  }

  /** `main_loop_with_policy`, for as long as events arrive. */
  method MainLoop<E>(t: Transport, b: Board<E>, d: Device<E>) returns (device: Device<E>)
    modifies t
    ensures t.incoming == []
    ensures device == Serve(b, d, old(t.incoming)).device
    ensures t.written == old(t.written) + Serve(b, d, old(t.incoming)).out
  {
    ghost var events, written := t.incoming, t.written;
    ghost var n := 0;
    device := d;
    assert events[..0] == [] && written + [] == written;
    while t.incoming != []
      invariant n <= |events| && t.incoming == events[n..]
      invariant device == Serve(b, d, events[..n]).device
      invariant t.written == written + Serve(b, d, events[..n]).out
      decreases |t.incoming|
    {
      hide Handle, Write;
      ghost var before := t.written;
      device := Ticked(b, device);
      ghost var turn := Handle(b, device, events[n]);
      var r := t.ReadFrame();
      match r {
        case Err(_) => HandleGap(b, device); device := PollAndReply(t, b, device);
        case Ok(frame) => device := Dispatch(t, b, device, frame);
      }
      assert t.written == before + turn.out && device == turn.device;
      ServeOneMore(b, d, events, n);
      Assoc(written, Serve(b, d, events[..n]).out, turn.out);
      n := n + 1;
    }
    assert events[..n] == events;
  }

  lemma HandleGap<E>(b: Board<E>, d: Device<E>)
    ensures Handle(b, d, Gap) == Polled(b, d)
  {
  }

  lemma ServeOneMore<E>(b: Board<E>, d: Device<E>, events: seq<Event>, n: nat)
    requires n < |events|
    ensures Serve(b, d, events[..n + 1]).device == Step(b, Serve(b, d, events[..n]).device, events[n]).device
    ensures Serve(b, d, events[..n + 1]).out == Serve(b, d, events[..n]).out + Step(b, Serve(b, d, events[..n]).device, events[n]).out
  {
    hide Step;
    assert events[..n + 1][..n] == events[..n];
  }

  method Dispatch<E>(t: Transport, b: Board<E>, d: Device<E>, frame: Frame) returns (device: Device<E>)
    modifies t`written
    ensures device == Handle(b, d, Arrived(frame)).device
    ensures t.written == old(t.written) + Handle(b, d, Arrived(frame)).out
  {
    hide Write, Permitted, Refusal, StatusJson, UnknownOpcodeText, Polled, SetParam;
    device := d;
    if frame.opcode == OP_DISCOVERY {
      t.WriteFrame(Reply(OP_DISCOVERY, b.manifest));
    } else if IsLoad(frame.opcode) {
      device := LoadModule(t, b, d, frame);
    } else if frame.opcode == OP_STOP {
      device := Halted(b, d);
      t.WriteFrame(Reply(OP_STATUS_RESPONSE, STOPPED_JSON));
    } else if frame.opcode == OP_QUERY_STATUS {
      t.WriteFrame(Reply(OP_STATUS_RESPONSE, StatusJson(b.executor.status(d.exec), b.executor.running(d.exec))));
    } else if frame.opcode == OP_SET_PARAM {
      var slots := SetSharedParam(d.slots, frame.payload);
      device := d.(slots := slots);
      assert t.written + [] == t.written;
    } else {
      t.WriteFrame(Reply(OP_EXEC_RESULT, UnknownOpcodeText(frame.opcode)));
    }
  }
}
