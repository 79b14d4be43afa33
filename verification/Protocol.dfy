/**
  Host and receiver as two processes over two FIFO channels, stepping in any order
  (`host/devices/device.py`, `receiver/src/lib.rs`). Waiting calls may be given up at any moment between frames.
*/
module Protocol {
  import opened Bits
  import opened Wrappers
  import opened Frames
  import opened Receiver
  import opened ReceiverSafety
  import opened Devices

  /**
    A call that waits: where its own frame is among those sent, and how many replies of its kind had been taken when
    it was made.
  */
  datatype Ticket = Ticket(at: nat, taken: nat)

  datatype Waiting = Nothing | ForResult(push: Option<Ticket>) | ForStatus(request: Ticket)

  /** A finished call: its ticket, and the position of the reply it was given. */
  datatype Answer = PushAnswer(ticket: Ticket, got: nat) | StatusAnswer(ticket: Ticket, got: nat)

  datatype State<E> = State(
    device: Device<E>,
    served: seq<Event>,        // what the receiver has seen
    toDevice: seq<Frame>,      // the channel to the receiver
    toHost: seq<Reply>,        // the channel to the host
    sent: seq<Frame>,          // every frame the host has written
    pending: seq<string>,      // the host's queue of results
    delivered: seq<string>,    // results handed to callers
    statuses: seq<string>,     // status replies taken off the channel
    waiting: Waiting,
    answers: seq<Answer>)

  datatype Action =
    | PushAsync(frame: Frame)
    | Push(frame: Frame)
    | Collect
    | Request(opcode: u8)
    | SetParameter(slot: u32, value: u32)
    | Receive
    | GiveUp
    | DeviceServes
    | DeviceIdles

  function Initial<E>(d: Device<E>): State<E> {
    State(d, [], [], [], [], [], [], [], Nothing, [])
  }

  function Send<E>(s: State<E>, f: Frame): State<E> {
    s.(toDevice := s.toDevice + [f], sent := s.sent + [f])
  }

  /** A result reaches the caller that waits for one. */
  function Deliver<E>(s: State<E>, text: string, push: Option<Ticket>): State<E> {
    s.(delivered := s.delivered + [text], waiting := Nothing,
       answers := if push.Some? then s.answers + [PushAnswer(push.value, |s.delivered|)] else s.answers)
  }

  /** `wait_result`: from the queue if it holds something, otherwise by waiting. */
  function Await<E>(s: State<E>, push: Option<Ticket>): State<E> {
    if s.pending != [] then Deliver(s.(pending := s.pending[1..]), s.pending[0], push)
    else s.(waiting := ForResult(push))
  }

  function PushTicket<E>(s: State<E>): Ticket {
    Ticket(|s.sent|, |s.delivered|)
  }

  function StatusTicket<E>(s: State<E>): Ticket {
    Ticket(|s.sent|, |s.statuses|)
  }

  /** The host takes the next frame off its channel and routes it. */
  function Take<E>(s: State<E>): State<E>
    requires s.toHost != [] && s.waiting != Nothing
  {
    var r, rest := s.toHost[0], s.(toHost := s.toHost[1..]);
    var want := if s.waiting.ForResult? then OP_EXEC_RESULT else OP_STATUS_RESPONSE;
    var turn := Route(want, r, s.pending);
    var seen := if r.opcode == OP_STATUS_RESPONSE then s.statuses + [r.text] else s.statuses;
    if turn.answer.None? then rest.(pending := turn.pending, statuses := seen)
    else if s.waiting.ForResult? then Deliver(rest, turn.answer.value, s.waiting.push)
    else rest.(statuses := seen, waiting := Nothing,
               answers := s.answers + [StatusAnswer(s.waiting.request, |s.statuses|)])
  }

  function Served<E>(b: Board<E>, s: State<E>, event: Event): State<E> {
    var turn := Step(b, s.device, event);
    s.(device := turn.device, served := s.served + [event], toHost := s.toHost + turn.out)
  }

  predicate Enabled<E>(s: State<E>, a: Action) {
    match a
    case PushAsync(f) => s.waiting == Nothing && IsLoad(f.opcode)
    case Push(f) => s.waiting == Nothing && IsLoad(f.opcode)
    case Collect => s.waiting == Nothing
    case Request(opcode) => s.waiting == Nothing && (opcode == OP_STOP || opcode == OP_QUERY_STATUS)
    case SetParameter(_, _) => s.waiting == Nothing
    case Receive => s.waiting != Nothing && s.toHost != []
    case GiveUp => s.waiting != Nothing
    case DeviceServes => s.toDevice != []
    case DeviceIdles => true
  }

  function Next<E>(b: Board<E>, s: State<E>, a: Action): State<E>
    requires Enabled(s, a)
  {
    match a
    case PushAsync(f) => Send(s, f)
    case Push(f) => Await(Send(s, f), Some(PushTicket(s)))
    case Collect => Await(s, None)
    case Request(opcode) => Send(s, Frame(opcode, [])).(waiting := ForStatus(StatusTicket(s)))
    case SetParameter(slot, value) => Send(s, ParamFrame(slot, value))
    case Receive => Take(s)
    case GiveUp => s.(waiting := Nothing)
    case DeviceServes => Served(b, s.(toDevice := s.toDevice[1..]), Arrived(s.toDevice[0]))
    case DeviceIdles => Served(b, s, Gap)
  }

  /** A run: actions that are not possible when they come up do nothing. */
  function Run<E>(b: Board<E>, s: State<E>, actions: seq<Action>): State<E>
    decreases |actions|
  {
    if actions == [] then s
    else
      var before := Run(b, s, actions[..|actions| - 1]);
      var a := actions[|actions| - 1];
      if Enabled(before, a) then Next(b, before, a) else before
  }

  // ---------- the invariant ----------

  ghost predicate AllHostSends(frames: seq<Frame>) {
    forall i :: 0 <= i < |frames| ==> HostSends(frames[i])
  }

  /** The channel to the receiver loses and reorders nothing, and the receiver's state is what it served. */
  ghost predicate DeviceSide<E>(b: Board<E>, d: Device<E>, s: State<E>) {
    && s.device == Serve(b, d, s.served).device
    && FramesOf(s.served) + s.toDevice == s.sent
    && AllHostSends(s.sent)
    && FromHost(s.served)
  }

  /** Results delivered, queued and under way are those written, in order; and so are the status replies. */
  ghost predicate HostSide(s: State, out: seq<Reply>) {
    && s.delivered + s.pending + Texts(OP_EXEC_RESULT, s.toHost) == Texts(OP_EXEC_RESULT, out)
    && s.statuses + Texts(OP_STATUS_RESPONSE, s.toHost) == Texts(OP_STATUS_RESPONSE, out)
  }

  /** The ticket's frame has been sent and is of the kind. */
  predicate SentFor(s: State, t: Ticket, kind: Frame -> bool) {
    t.at < |s.sent| && kind(s.sent[t.at])
  }

  /** Tickets name frames of their calls; while a call waits, nothing of the kind it waits for is handed out. */
  ghost predicate Tickets(s: State) {
    && (s.waiting.ForResult? ==> s.pending == [])
    && (s.waiting.ForResult? && s.waiting.push.Some? ==>
          SentFor(s, s.waiting.push.value, IsLoadFrame) && s.waiting.push.value.taken == |s.delivered|)
    && (s.waiting.ForStatus? ==> SentFor(s, s.waiting.request, IsStatusRequest) && s.waiting.request.taken == |s.statuses|)
    && (forall i :: 0 <= i < |s.answers| ==> AnswerAccounted(s, s.answers[i]))
  }

  predicate AnswerAccounted(s: State, a: Answer) {
    && SentFor(s, a.ticket, if a.PushAnswer? then IsLoadFrame else IsStatusRequest)
    && a.got == a.ticket.taken < (if a.PushAnswer? then |s.delivered| else |s.statuses|)
  }

  ghost predicate Invariant<E>(b: Board<E>, d: Device<E>, s: State<E>) {
    DeviceSide(b, d, s) && HostSide(s, Serve(b, d, s.served).out) && Tickets(s)
  }

  lemma SendKeepsDeviceSide<E>(b: Board<E>, d: Device<E>, s: State<E>, f: Frame)
    requires DeviceSide(b, d, s) && HostSends(f)
    ensures DeviceSide(b, d, Send(s, f))
  {
    Assoc(FramesOf(s.served), s.toDevice, [f]);
  }

  lemma AwaitKeeps<E>(s: State<E>, out: seq<Reply>, push: Option<Ticket>)
    requires HostSide(s, out) && Tickets(s) && s.waiting == Nothing
    requires push.Some? ==> SentFor(s, push.value, IsLoadFrame) && push.value.taken == |s.delivered|
    ensures HostSide(Await(s, push), out) && Tickets(Await(s, push))
  {
    hide Texts;
    if s.pending != [] {
      Assoc(s.delivered, [s.pending[0]], s.pending[1..]);
      assert [s.pending[0]] + s.pending[1..] == s.pending;
    }
  }

  lemma TakeKeeps<E>(s: State<E>, out: seq<Reply>)
    requires HostSide(s, out) && Tickets(s) && s.waiting != Nothing && s.toHost != []
    ensures HostSide(Take(s), out)
    ensures Tickets(Take(s))
  {
    hide Texts;
    var r, rest := s.toHost[0], s.toHost[1..];
    assert s.toHost == [r] + rest;
    TextsAppend(OP_EXEC_RESULT, [r], rest);
    TextsAppend(OP_STATUS_RESPONSE, [r], rest);
    TextsOne(OP_EXEC_RESULT, r);
    TextsOne(OP_STATUS_RESPONSE, r);
    Assoc(s.delivered + s.pending, Texts(OP_EXEC_RESULT, [r]), Texts(OP_EXEC_RESULT, rest));
    Assoc(s.delivered, s.pending, Texts(OP_EXEC_RESULT, [r]));
    Assoc(s.statuses, Texts(OP_STATUS_RESPONSE, [r]), Texts(OP_STATUS_RESPONSE, rest));
    assert s.delivered + s.pending + [] == s.delivered + s.pending && s.statuses + [] == s.statuses;
    if s.waiting.ForResult? && r.opcode == OP_EXEC_RESULT {
      assert s.delivered + [r.text] + [] == s.delivered + ([] + [r.text]);
    }
  }

  lemma ServedKeeps<E>(b: Board<E>, d: Device<E>, s: State<E>, t: State<E>, event: Event)
    requires DeviceSide(b, d, s) && HostSide(s, Serve(b, d, s.served).out)
    requires event.Gap? ==> t == s
    requires event.Arrived? ==> s.toDevice != [] && event.frame == s.toDevice[0] && t == s.(toDevice := s.toDevice[1..])
    ensures DeviceSide(b, d, Served(b, t, event))
    ensures HostSide(Served(b, t, event), Serve(b, d, Served(b, t, event).served).out)
  {
    hide Step, Texts, HostSends;
    var served := s.served + [event];
    assert served[..|s.served|] == s.served;
    var turn := Step(b, s.device, event);
    TextsAppend(OP_EXEC_RESULT, s.toHost, turn.out);
    TextsAppend(OP_STATUS_RESPONSE, s.toHost, turn.out);
    TextsAppend(OP_EXEC_RESULT, Serve(b, d, s.served).out, turn.out);
    TextsAppend(OP_STATUS_RESPONSE, Serve(b, d, s.served).out, turn.out);
    Assoc(s.delivered + s.pending, Texts(OP_EXEC_RESULT, s.toHost), Texts(OP_EXEC_RESULT, turn.out));
    Assoc(s.statuses, Texts(OP_STATUS_RESPONSE, s.toHost), Texts(OP_STATUS_RESPONSE, turn.out));
    if event.Arrived? {
      assert s.toDevice == [event.frame] + s.toDevice[1..];
      Assoc(FramesOf(s.served), [event.frame], s.toDevice[1..]);
      assert s.sent[|FramesOf(s.served)|] == event.frame;
    } else {
      assert FramesOf(s.served) + [] == FramesOf(s.served);
    }
  }

  lemma NextKeeps<E>(b: Board<E>, d: Device<E>, s: State<E>, a: Action)
    requires Invariant(b, d, s) && Enabled(s, a)
    ensures Invariant(b, d, Next(b, s, a))
  {
    hide Step, Texts, Serve, DeviceSide, HostSide, Tickets, Served, Take, Await, Count;
    var out := Serve(b, d, s.served).out;
    match a
    case PushAsync(f) =>
      SendKeepsDeviceSide(b, d, s, f);
      SendKeepsHost(s, out, f);
    case Push(f) =>
      SendKeepsDeviceSide(b, d, s, f);
      SendKeepsHost(s, out, f);
      AwaitKeeps(Send(s, f), out, Some(PushTicket(s)));
      AwaitFrame(b, d, Send(s, f), Some(PushTicket(s)));
    case Collect =>
      AwaitKeeps(s, out, None);
      AwaitFrame(b, d, s, None);
    case Request(opcode) =>
      SendKeepsDeviceSide(b, d, s, Frame(opcode, []));
      SendKeepsHost(s, out, Frame(opcode, []));
      WaitingFrame(b, d, Send(s, Frame(opcode, [])), out, ForStatus(StatusTicket(s)));
    case SetParameter(slot, value) =>
      SendKeepsDeviceSide(b, d, s, ParamFrame(slot, value));
      SendKeepsHost(s, out, ParamFrame(slot, value));
    case Receive =>
      TakeKeeps(s, out);
      TakeFrame(b, d, s);
    case GiveUp =>
      WaitingFrame(b, d, s, out, Nothing);
    case DeviceServes =>
      ServedKeeps(b, d, s, s.(toDevice := s.toDevice[1..]), Arrived(s.toDevice[0]));
      ServedFrame(b, s, s.(toDevice := s.toDevice[1..]), Arrived(s.toDevice[0]));
    case DeviceIdles =>
      ServedKeeps(b, d, s, s, Gap);
      ServedFrame(b, s, s, Gap);
  }

  lemma SendKeepsHost<E>(s: State<E>, out: seq<Reply>, f: Frame)
    requires HostSide(s, out) && Tickets(s)
    ensures HostSide(Send(s, f), out) && Tickets(Send(s, f))
  {
    hide Texts;
    assert forall a :: AnswerAccounted(s, a) ==> AnswerAccounted(Send(s, f), a);
  }

  lemma WaitingFrame<E>(b: Board<E>, d: Device<E>, s: State<E>, out: seq<Reply>, w: Waiting)
    requires DeviceSide(b, d, s) && HostSide(s, out) && Tickets(s)
    requires w == Nothing || (w.ForStatus? && SentFor(s, w.request, IsStatusRequest) && w.request.taken == |s.statuses|)
    ensures DeviceSide(b, d, s.(waiting := w)) && HostSide(s.(waiting := w), out) && Tickets(s.(waiting := w))
  {
    hide Texts, Serve;
    assert forall a :: AnswerAccounted(s, a) ==> AnswerAccounted(s.(waiting := w), a);
  }

  lemma AwaitFrame<E>(b: Board<E>, d: Device<E>, s: State<E>, push: Option<Ticket>)
    requires DeviceSide(b, d, s)
    ensures DeviceSide(b, d, Await(s, push)) && Await(s, push).served == s.served
  {
    hide Serve;
  }

  lemma TakeFrame<E>(b: Board<E>, d: Device<E>, s: State<E>)
    requires DeviceSide(b, d, s) && s.waiting != Nothing && s.toHost != []
    ensures DeviceSide(b, d, Take(s)) && Take(s).served == s.served
  {
    hide Serve;
  }

  lemma ServedFrame<E>(b: Board<E>, s: State<E>, t: State<E>, event: Event)
    requires Tickets(s) && (t == s || t == s.(toDevice := t.toDevice))
    ensures Tickets(Served(b, t, event))
  {
    hide Step;
    assert forall a :: AnswerAccounted(s, a) ==> AnswerAccounted(Served(b, t, event), a);
  }

  /** The invariant holds in every run, from every initial device, under every executor. */
  lemma {:induction false} RunKeeps<E>(b: Board<E>, d: Device<E>, actions: seq<Action>)
    ensures Invariant(b, d, Run(b, Initial(d), actions))
    decreases |actions|
  {
    if actions != [] {
      hide Invariant, Enabled, Next;
      RunKeeps(b, d, actions[..|actions| - 1]);
      var before := Run(b, Initial(d), actions[..|actions| - 1]);
      if Enabled(before, actions[|actions| - 1]) { NextKeeps(b, d, before, actions[|actions| - 1]); }
    }
  }
}
