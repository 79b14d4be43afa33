/**
  The host's handle on a receiver (`host/devices/device.py`): requests, the frame router and the queue of
  results that arrived while something else was awaited.
*/
module Devices {
  import opened Bits
  import opened Wrappers
  import opened Json
  import opened Results
  import opened Frames
  import opened Receiver
  import opened ReceiverSafety

  // ---------- the router ----------

  datatype Routed = Routed(pending: seq<string>, answer: Option<string>)

  /** One turn of `_read_routed`: the wanted frame ends it, a stray result is queued, anything else is dropped. */
  function Route(want: u8, r: Reply, pending: seq<string>): Routed {
    if r.opcode == want then Routed(pending, Some(r.text))
    else if r.opcode == OP_EXEC_RESULT then Routed(pending + [r.text], None)
    else Routed(pending, None)
  }

  /** What the transport has next: a frame, or the passing of the caller's deadline. */
  datatype Arrival = Came(reply: Reply) | Lapsed

  datatype Reading = Reading(taken: seq<Reply>, pending: seq<string>, answer: Option<string>, left: seq<Arrival>)

  /** The whole loop; without an answer it ends in a timeout. */
  function Read(want: u8, arrivals: seq<Arrival>, pending: seq<string>): Reading
    decreases |arrivals|
  {
    if arrivals == [] then Reading([], pending, None, [])
    else if arrivals[0].Lapsed? then Reading([], pending, None, arrivals[1..])
    else
      var reply := arrivals[0].reply;
      var turn := Route(want, reply, pending);
      if turn.answer.Some? then Reading([reply], turn.pending, turn.answer, arrivals[1..])
      else
        var more := Read(want, arrivals[1..], turn.pending);
        more.(taken := [reply] + more.taken)
  }

  function Arrivals(replies: seq<Reply>): seq<Arrival> {
    if replies == [] then [] else [Came(replies[0])] + Arrivals(replies[1..])
  }

  /**
    What the router does with the frames it takes. Waiting for a result, it hands over the first one and queues
    none; waiting for anything else, it queues every result that comes by, in order. The answer is the first
    frame of the wanted opcode, and there is none before it.
  */
  lemma {:induction false} RouterConserves(want: u8, arrivals: seq<Arrival>, pending: seq<string>)
    ensures var r := Read(want, arrivals, pending);
      && (want != OP_EXEC_RESULT ==> r.pending == pending + Texts(OP_EXEC_RESULT, r.taken))
      && (want == OP_EXEC_RESULT ==> r.pending == pending)
      && Texts(want, r.taken) == (if r.answer.Some? then [r.answer.value] else [])
      && (r.answer.Some? ==> r.taken != [] && r.taken[|r.taken| - 1] == Reply(want, r.answer.value))
    decreases |arrivals|
  {
    hide Texts;
    TextsOne(want, Reply(0, []));
    TextsOne(OP_EXEC_RESULT, Reply(0, []));
    if arrivals == [] || arrivals[0].Lapsed? {
      assert pending + [] == pending;
    } else {
      var reply := arrivals[0].reply;
      TextsOne(want, reply);
      TextsOne(OP_EXEC_RESULT, reply);
      if reply.opcode == want {
        assert pending + [] == pending;
      } else {
        var next := Route(want, reply, pending).pending;
        RouterConserves(want, arrivals[1..], next);
        var more := Read(want, arrivals[1..], next);
        TextsAppend(want, [reply], more.taken);
        TextsAppend(OP_EXEC_RESULT, [reply], more.taken);
        Assoc(pending, Texts(OP_EXEC_RESULT, [reply]), Texts(OP_EXEC_RESULT, more.taken));
        assert [] + Texts(want, more.taken) == Texts(want, more.taken);
        assert pending + [] == pending;
      }
    }
  }

  /** Without an answer the loop goes on to the deadline or to the last arrival; it takes every frame up to its end. */
  lemma {:induction false} RouterReadsOn(want: u8, arrivals: seq<Arrival>, pending: seq<string>)
    ensures var r := Read(want, arrivals, pending);
      && (r.answer.Some? ==> arrivals == Arrivals(r.taken) + r.left)
      && (r.answer.None? ==>
            (arrivals == Arrivals(r.taken) && r.left == []) || arrivals == Arrivals(r.taken) + [Lapsed] + r.left)
    decreases |arrivals|
  {
    hide Read, Route, Arrivals;
    MiloDevice.ReadTurn(want, arrivals, pending);
    ArrivalsOf([]);
    if arrivals != [] {
      var rest := arrivals[1..];
      assert arrivals == [arrivals[0]] + rest;
      if arrivals[0].Lapsed? {
        assert [] + [Lapsed] == [Lapsed];
      } else {
        var reply := arrivals[0].reply;
        ArrivalsOf([reply]);
        if reply.opcode != want {
          var next := Route(want, reply, pending).pending;
          RouterReadsOn(want, rest, next);
          var more := Read(want, rest, next);
          ArrivalsOf([reply] + more.taken);
          assert ([reply] + more.taken)[1..] == more.taken;
          Assoc([Came(reply)], Arrivals(more.taken), more.left);
          Assoc([Came(reply)], Arrivals(more.taken), [Lapsed]);
          Assoc([Came(reply)], Arrivals(more.taken) + [Lapsed], more.left);
        }
      }
    }
  }

  lemma ArrivalsOf(replies: seq<Reply>)
    ensures replies == [] ==> Arrivals(replies) == []
    ensures replies != [] ==> Arrivals(replies) == [Came(replies[0])] + Arrivals(replies[1..])
    ensures |replies| == 1 ==> Arrivals(replies) == [Came(replies[0])]
  {
  }

  // ---------- the transport and the device ----------

  class HostTransport {
    var incoming: seq<Arrival>
    var sent: seq<Frame>
    ghost var received: seq<Reply>

    constructor (arrivals: seq<Arrival>)
      ensures incoming == arrivals && sent == [] && received == []
    {
      incoming, sent, received := arrivals, [], [];
    }

    method WriteFrame(opcode: u8, payload: seq<u8>)
      modifies this`sent
      ensures sent == old(sent) + [Frame(opcode, payload)]
    {
      sent := sent + [Frame(opcode, payload)];
    }

    /** One frame, or `None` for `TimeoutError`; with nothing left to come the deadline passes. */
    method ReadFrame() returns (r: Option<Reply>)
      modifies this`incoming, this`received
      ensures old(incoming) == [] ==> r == None && incoming == [] && received == old(received)
      ensures old(incoming) != [] ==> incoming == old(incoming)[1..]
      ensures old(incoming) != [] && old(incoming)[0].Lapsed? ==> r == None && received == old(received)
      ensures old(incoming) != [] && old(incoming)[0].Came? ==>
        r == Some(old(incoming)[0].reply) && received == old(received) + [old(incoming)[0].reply]
    {
      if incoming == [] { return None; }
      var next := incoming[0];
      incoming := incoming[1..];
      if next.Lapsed? { return None; }
      received := received + [next.reply];
      return Some(next.reply);
    }
  }

  /** How a call that waits ends. */
  datatype Ended<T> = Got(value: T) | TimedOut | Malformed

  class MiloDevice {
    const transport: HostTransport
    var pendingResults: seq<string>
    /** The result payloads handed to callers so far. */
    ghost var returned: seq<string>

    /** No result is lost, duplicated or reordered: the returned ones and then the queued ones are those received. */
    ghost predicate Valid()
      reads this, transport
    {
      returned + pendingResults == Texts(OP_EXEC_RESULT, transport.received)
    }

    constructor (t: HostTransport)
      requires t.received == []
      ensures Valid() && transport == t && pendingResults == [] && returned == []
    {
      transport, pendingResults, returned := t, [], [];
    }

    method ReadRouted(want: u8) returns (answer: Option<string>)
      modifies this`pendingResults, transport`incoming, transport`received
      ensures var r := Read(want, old(transport.incoming), old(pendingResults));
        answer == r.answer && pendingResults == r.pending && transport.incoming == r.left
        && transport.received == old(transport.received) + r.taken
    {
      ghost var whole := Read(want, transport.incoming, pendingResults);
      ghost var before := transport.received;
      ghost var taken: seq<Reply> := [];
      while true
        invariant transport.received == before + taken
        invariant var r := Read(want, transport.incoming, pendingResults);
          r.answer == whole.answer && r.pending == whole.pending && r.left == whole.left && taken + r.taken == whole.taken
        decreases |transport.incoming|
      {
        hide Read;
        ghost var arrivals, pending := transport.incoming, pendingResults;
        ReadTurn(want, arrivals, pending);
        var frame := transport.ReadFrame();
        if frame.None? {
          assert taken + [] == taken;
          return None;
        }
        ghost var seen := taken;
        taken := taken + [frame.value];
        Assoc(before, seen, [frame.value]);
        if frame.value.opcode == want { return Some(frame.value.text); }
        if frame.value.opcode == OP_EXEC_RESULT {
          pendingResults := pendingResults + [frame.value.text];
        }
        Assoc(seen, [frame.value], Read(want, transport.incoming, pendingResults).taken);
      }
    }

    static lemma ReadTurn(want: u8, arrivals: seq<Arrival>, pending: seq<string>)
      ensures arrivals == [] ==> Read(want, arrivals, pending) == Reading([], pending, None, [])
      ensures arrivals != [] && arrivals[0].Lapsed? ==> Read(want, arrivals, pending) == Reading([], pending, None, arrivals[1..])
      ensures arrivals != [] && arrivals[0].Came? ==>
        var reply := arrivals[0].reply;
        var more := Read(want, arrivals[1..], Route(want, reply, pending).pending);
        Read(want, arrivals, pending) ==
          if reply.opcode == want then Reading([reply], pending, Some(reply.text), arrivals[1..])
          else more.(taken := [reply] + more.taken)
    {
    }

    /** The next result: the oldest queued one, otherwise the first to arrive. */
    method WaitResult() returns (r: Ended<HostResult>, ghost payload: Option<string>)
      requires Valid()
      modifies this, transport`incoming, transport`received
      ensures Valid()
      ensures payload.Some? ==> returned == old(returned) + [payload.value]
      ensures payload.None? ==> returned == old(returned) && r.TimedOut?
      ensures old(pendingResults) != [] ==>
        payload == Some(old(pendingResults)[0]) && pendingResults == old(pendingResults)[1..]
        && transport.incoming == old(transport.incoming)
      ensures old(pendingResults) == [] ==>
        payload == Read(OP_EXEC_RESULT, old(transport.incoming), []).answer && pendingResults == []
      ensures payload.Some? ==> r == Parsed(payload.value)
    {
      hide Read, ParseResult, Texts;
      if pendingResults != [] {
        var first := pendingResults[0];
        pendingResults := pendingResults[1..];
        returned := returned + [first];
        r := Parsed(first);
        return r, Some(first);
      }
      RouterConserves(OP_EXEC_RESULT, transport.incoming, []);
      TextsAppend(OP_EXEC_RESULT, transport.received, Read(OP_EXEC_RESULT, transport.incoming, []).taken);
      var answer := ReadRouted(OP_EXEC_RESULT);
      if answer.None? { return TimedOut, None; }
      returned := returned + [answer.value];
      r := Parsed(answer.value);
      return r, Some(answer.value);
    }

    /** `_parse_result` as a caller sees it. */
    static function Parsed(payload: string): Ended<HostResult> {
      match ParseResult(payload)
      case Some(v) => Got(v)
      case None => Malformed
    }

    /** `push_async`, `push_signed_async` and `hot_swap_async`, by opcode. */
    method PushAsync(opcode: u8, wasm: seq<u8>)
      requires Valid() && IsLoad(opcode)
      modifies transport`sent
      ensures Valid()
      ensures transport.sent == old(transport.sent) + [Frame(opcode, wasm)]
    {
      transport.WriteFrame(opcode, wasm);
    }

    /** `push`, `push_signed`, `hot_swap` and `hot_swap_signed`, by opcode: send, then wait for the next result. */
    method Push(opcode: u8, wasm: seq<u8>) returns (r: Ended<HostResult>, ghost payload: Option<string>)
      requires Valid() && IsLoad(opcode)
      modifies this, transport
      ensures Valid()
      ensures transport.sent == old(transport.sent) + [Frame(opcode, wasm)]
      ensures returned == old(returned) + (if payload.Some? then [payload.value] else [])
      ensures payload == if old(pendingResults) != [] then Some(old(pendingResults)[0])
                         else Read(OP_EXEC_RESULT, old(transport.incoming), []).answer
    {
      hide Read;
      transport.WriteFrame(opcode, wasm);
      r, payload := WaitResult();
    }

    /** `stop` and `query_status` up to parsing: the answer is the next status frame; results are queued. */
    method Request(opcode: u8) returns (answer: Option<string>)
      requires Valid() && (opcode == OP_STOP || opcode == OP_QUERY_STATUS)
      modifies this`pendingResults, transport
      ensures Valid()
      ensures transport.sent == old(transport.sent) + [Frame(opcode, [])]
      ensures answer == Read(OP_STATUS_RESPONSE, old(transport.incoming), old(pendingResults)).answer
    {
      hide Read;
      transport.WriteFrame(opcode, []);
      RouterConserves(OP_STATUS_RESPONSE, transport.incoming, pendingResults);
      ghost var taken := Read(OP_STATUS_RESPONSE, transport.incoming, pendingResults).taken;
      TextsAppend(OP_EXEC_RESULT, transport.received, taken);
      Assoc(returned, pendingResults, Texts(OP_EXEC_RESULT, taken));
      answer := ReadRouted(OP_STATUS_RESPONSE);
    }

    method Stop() returns (r: Ended<Value>)
      requires Valid()
      modifies this`pendingResults, transport
      ensures Valid() && transport.sent == old(transport.sent) + [Frame(OP_STOP, [])]
      ensures var answer := Read(OP_STATUS_RESPONSE, old(transport.incoming), old(pendingResults)).answer;
        r == if answer.None? then TimedOut else if Loads(answer.value).None? then Malformed else Got(Loads(answer.value).value)
    {
      hide Read, Loads;
      var answer := Request(OP_STOP);
      r := if answer.None? then TimedOut else if Loads(answer.value).None? then Malformed else Got(Loads(answer.value).value);
    }

    method QueryStatus() returns (r: Ended<DeviceStatus>)
      requires Valid()
      modifies this`pendingResults, transport
      ensures Valid() && transport.sent == old(transport.sent) + [Frame(OP_QUERY_STATUS, [])]
      ensures var answer := Read(OP_STATUS_RESPONSE, old(transport.incoming), old(pendingResults)).answer;
        r == if answer.None? then TimedOut
             else if ParseStatus(answer.value).None? then Malformed else Got(ParseStatus(answer.value).value)
    {
      hide Read, ParseStatus;
      var answer := Request(OP_QUERY_STATUS);
      r := if answer.None? then TimedOut
           else if ParseStatus(answer.value).None? then Malformed else Got(ParseStatus(answer.value).value);
    }

    /** `set_param` sends two big-endian words and waits for nothing. */
    method SetParam(slot: u32, value: u32)
      requires Valid()
      modifies transport`sent
      ensures Valid()
      ensures transport.sent == old(transport.sent) + [ParamFrame(slot, value)]
    {
      transport.WriteFrame(OP_SET_PARAM, ToBytes32(slot) + ToBytes32(value));
    }
  }

  /** A caller who waits for a result the receiver has written gets what was executed. */
  lemma CallerGetsResult(r: ExecResult)
    ensures MiloDevice.Parsed(Write(ResultValue(r))) == Got(HostView(r))
  {
    hide Write, ParseResult;
    ResultRoundTrip(r);
  }

  function ParamFrame(slot: u32, value: u32): Frame {
    Frame(OP_SET_PARAM, ToBytes32(slot) + ToBytes32(value))
  }

  /** The receiver stores exactly the value the host set, in exactly that slot, and ignores slots it does not have. */
  lemma ParamArrives(slots: seq<u32>, slot: u32, value: u32)
    ensures Receiver.SetParam(slots, ParamFrame(slot, value).payload) == if slot < |slots| then slots[slot := value] else slots
  {
    hide ToBytes32, FromBytes32;
    var payload := ParamFrame(slot, value).payload;
    assert payload[..4] == ToBytes32(slot) && payload[4..8] == ToBytes32(value);
    FromToBytes32(slot);
    FromToBytes32(value);
  }
}
