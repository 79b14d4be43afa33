/**
  What host and receiver promise in every run: results come back in the order of the pushes, requests read
  their own replies, and no wait with something outstanding is stuck.
*/
module Delivery {
  import opened Bits
  import opened Wrappers
  import opened Json
  import opened Results
  import opened Frames
  import opened Receiver
  import opened ReceiverSafety
  import opened Devices
  import opened Protocol

  // ---------- positions of frames ----------

  lemma {:induction false} FramesPrefix(events: seq<Event>, i: nat)
    requires i < |events| && events[i].Arrived?
    ensures var j := |FramesOf(events[..i])|;
      j < |FramesOf(events)| && FramesOf(events)[..j] == FramesOf(events[..i]) && FramesOf(events)[j] == events[i].frame
    decreases |events|
  {
    var front := events[..|events| - 1];
    if i < |front| {
      FramesPrefix(front, i);
      assert front[..i] == events[..i];
    }
  }

  lemma {:induction false} CountMono(a: seq<Frame>, b: seq<Frame>, kind: Frame -> bool)
    ensures Count(a, kind) <= Count(a + b, kind)
    ensures Count(a + b, kind) == Count(a, kind) + Count(b, kind)
    decreases |b|
  {
    if b == [] {
      assert a + b == a;
    } else {
      CountMono(a, b[..|b| - 1], kind);
      assert (a + b)[..|a + b| - 1] == a + b[..|b| - 1];
    }
  }

  /** The `k`-th outcome is that of the `k`-th push or swap, on the state the receiver was in when it came. */
  lemma {:induction false} KthOutcome<E>(b: Board<E>, d: Device<E>, events: seq<Event>, k: nat) returns (i: nat)
    requires k < |Outcomes(b, d, events)|
    ensures i < |events| && events[i].Arrived? && IsLoad(events[i].frame.opcode)
    ensures Count(FramesOf(events[..i]), IsLoadFrame) == k
    ensures Outcomes(b, d, events)[k] == Outcome(b, Ticked(b, Serve(b, d, events[..i]).device), events[i].frame)
    decreases |events|
  {
    hide Serve, Outcome;
    var front := events[..|events| - 1];
    if k < |Outcomes(b, d, front)| {
      i := KthOutcome(b, d, front, k);
      assert front[..i] == events[..i];
    } else {
      i := |front|;
      OutcomeCounts(b, d, front);
    }
  }

  lemma {:induction false} KthAnswer<E>(b: Board<E>, d: Device<E>, events: seq<Event>, k: nat) returns (i: nat)
    requires k < |Answers(b, d, events)|
    ensures i < |events| && events[i].Arrived? && IsStatusRequest(events[i].frame)
    ensures Count(FramesOf(events[..i]), IsStatusRequest) == k
    ensures [Answers(b, d, events)[k]] == AnswerOn(b, Serve(b, d, events[..i]).device, events[i])
    decreases |events|
  {
    hide Serve, StatusJson;
    var front := events[..|events| - 1];
    if k < |Answers(b, d, front)| {
      i := KthAnswer(b, d, front, k);
      assert front[..i] == events[..i];
    } else {
      i := |front|;
      OutcomeCounts(b, d, front);
    }
  }

  // ---------- results ----------

  /** Facts about a reachable state, by kind of reply. */
  lemma ReachableCounts<E>(b: Board<E>, d: Device<E>, s: State<E>)
    requires Invariant(b, d, s)
    ensures |s.statuses| + |Texts(OP_STATUS_RESPONSE, s.toHost)| == Count(FramesOf(s.served), IsStatusRequest)
    ensures Count(s.sent, IsStatusRequest) == Count(FramesOf(s.served), IsStatusRequest) + Count(s.toDevice, IsStatusRequest)
    ensures Count(s.sent, IsLoadFrame) == Count(FramesOf(s.served), IsLoadFrame) + Count(s.toDevice, IsLoadFrame)
  {
    hide Serve, Texts, Outcomes, Answers;
    StatusReplies(b, d, s.served);
    OutcomeCounts(b, d, s.served);
    CountMono(FramesOf(s.served), s.toDevice, IsStatusRequest);
    CountMono(FramesOf(s.served), s.toDevice, IsLoadFrame);
  }

  lemma ReachableResults<E(!new)>(b: Board<E>, d: Device<E>, s: State<E>, quiet: E -> bool)
    requires Invariant(b, d, s) && Blocking(b.executor, quiet) && quiet(d.exec)
    ensures s.delivered + s.pending + Texts(OP_EXEC_RESULT, s.toHost) == Written(Outcomes(b, d, s.served))
    ensures |s.delivered| + |s.pending| + |Texts(OP_EXEC_RESULT, s.toHost)| == Count(FramesOf(s.served), IsLoadFrame)
  {
    hide Serve, Texts, Outcomes, Answers, Blocking;
    BlockingReplies(b, d, s.served, quiet);
    OutcomeCounts(b, d, s.served);
  }

  /**
    In every run, whatever calls were interleaved or given up: the `k`-th result handed to a caller is the
    outcome of the `k`-th push or swap the host sent.
  */
  lemma ResultsInOrder<E(!new)>(b: Board<E>, d: Device<E>, actions: seq<Action>, quiet: E -> bool, k: nat) returns (i: nat, j: nat)
    requires Blocking(b.executor, quiet) && quiet(d.exec)
    requires k < |Run(b, Initial(d), actions).delivered|
    ensures var s := Run(b, Initial(d), actions);
      && i < |s.served| && j < |s.sent| && s.served[i] == Arrived(s.sent[j])
      && FramesOf(s.served[..i]) == s.sent[..j]
      && IsLoad(s.sent[j].opcode) && Count(s.sent[..j], IsLoadFrame) == k
      && ParseResult(s.delivered[k]) == Some(HostView(Outcome(b, Ticked(b, Serve(b, d, s.served[..i]).device), s.sent[j])))
  {
    hide Run, Serve, Texts, Outcomes, Outcome, Write, ParseResult, Blocking, HostSide, Tickets;
    var s := Run(b, Initial(d), actions);
    RunKeeps(b, d, actions);
    ReachableResults(b, d, s, quiet);
    var results := Outcomes(b, d, s.served);
    assert s.delivered[k] == (s.delivered + s.pending + Texts(OP_EXEC_RESULT, s.toHost))[k];
    assert s.delivered[k] == Write(ResultValue(results[k]));
    i := KthOutcome(b, d, s.served, k);
    FramesPrefix(s.served, i);
    j := |FramesOf(s.served[..i])|;
    assert s.sent[..j] == FramesOf(s.served)[..j];
    ResultRoundTrip(results[k]);
  }

  /** Of the frames of one kind, each has its own count of frames before it. */
  lemma CountsDiffer(frames: seq<Frame>, i: nat, j: nat, kind: Frame -> bool)
    requires i < j < |frames| && kind(frames[i])
    ensures Count(frames[..i], kind) < Count(frames[..j], kind)
  {
    assert frames[..i + 1] == frames[..i] + [frames[i]];
    CountLast(frames[..i], frames[i], kind);
    assert frames[..j] == frames[..i + 1] + frames[i + 1..j];
    CountMono(frames[..i + 1], frames[i + 1..j], kind);
  }

  /** Tickets issued for the frame at `at` say that `taken` replies had been taken, and the frames up to it are those. */
  ghost predicate Recalls(s: State, sent: seq<Frame>, taken: nat) {
    && sent <= s.sent
    && (s.waiting.ForResult? && s.waiting.push.Some? && s.waiting.push.value.at == |sent| - 1 ==> s.waiting.push.value.taken == taken)
    && (s.waiting.ForStatus? && s.waiting.request.at == |sent| - 1 ==> s.waiting.request.taken == taken)
    && (forall i :: 0 <= i < |s.answers| && s.answers[i].ticket.at == |sent| - 1 ==> s.answers[i].ticket.taken == taken)
  }

  lemma NextRecalls<E>(b: Board<E>, s: State<E>, a: Action, sent: seq<Frame>, taken: nat)
    requires Recalls(s, sent, taken) && sent != [] && Enabled(s, a)
    ensures Recalls(Next(b, s, a), sent, taken)
  {
    hide Step;
  }

  lemma {:induction false} RunRecalls<E>(b: Board<E>, s: State<E>, actions: seq<Action>, sent: seq<Frame>, taken: nat)
    requires Recalls(s, sent, taken) && sent != []
    ensures Recalls(Run(b, s, actions), sent, taken)
    decreases |actions|
  {
    if actions != [] {
      hide Recalls, Next, Enabled;
      var front, a := actions[..|actions| - 1], actions[|actions| - 1];
      RunRecalls(b, s, front, sent, taken);
      if Enabled(Run(b, s, front), a) { NextRecalls(b, Run(b, s, front), a, sent, taken); }
    }
  }

  lemma {:induction false} RunAppend<E>(b: Board<E>, s: State<E>, x: seq<Action>, y: seq<Action>)
    ensures Run(b, s, x + y) == Run(b, Run(b, s, x), y)
    decreases |y|
  {
    hide Next, Enabled;
    if y == [] {
      assert x + y == x;
    } else {
      RunAppend(b, s, x, y[..|y| - 1]);
      assert (x + y)[..|x + y| - 1] == x + y[..|y| - 1];
    }
  }

  /** A call made after `front` is remembered by its ticket, whatever happens later. */
  lemma CallRecalled<E>(b: Board<E>, d: Device<E>, front: seq<Action>, call: Action, rest: seq<Action>)
    requires call.Push? || call.Request?
    requires Enabled(Run(b, Initial(d), front), call)
    ensures var before := Run(b, Initial(d), front);
      var f := if call.Push? then call.frame else Frame(call.opcode, []);
      var taken := if call.Push? then |before.delivered| else |before.statuses|;
      Recalls(Run(b, Initial(d), front + [call] + rest), before.sent + [f], taken)
  {
    hide Run, Step, DeviceSide, HostSide;
    var before := Run(b, Initial(d), front);
    RunKeeps(b, d, front);
    assert forall i :: 0 <= i < |before.answers| ==> AnswerAccounted(before, before.answers[i]);
    RunAppend(b, Initial(d), front, [call]);
    RunFirst(b, before, call, []);
    RunNone(b, Next(b, before, call));
    assert [call] + [] == [call];
    var f := if call.Push? then call.frame else Frame(call.opcode, []);
    var taken := if call.Push? then |before.delivered| else |before.statuses|;
    RunAppend(b, Initial(d), front + [call], rest);
    RunRecalls(b, Next(b, before, call), rest, before.sent + [f], taken);
  }

  /**
    A blocking `push` is given the result of its own frame exactly if every result of an earlier push had been
    collected when it was called; otherwise it is given the oldest one that had not.
  */
  lemma PushReturnsOwnResultIff<E(!new)>(b: Board<E>, d: Device<E>, front: seq<Action>, f: Frame, rest: seq<Action>,
                                         quiet: E -> bool, n: nat) returns (i: nat, j: nat)
    requires Blocking(b.executor, quiet) && quiet(d.exec)
    requires Enabled(Run(b, Initial(d), front), Push(f))
    requires var s := Run(b, Initial(d), front + [Push(f)] + rest);
      n < |s.answers| && s.answers[n].PushAnswer? && s.answers[n].ticket.at == |Run(b, Initial(d), front).sent|
    ensures var before, s := Run(b, Initial(d), front), Run(b, Initial(d), front + [Push(f)] + rest);
      var own, got := |before.sent|, s.answers[n].got;
      && own < |s.sent| && s.sent[own] == f && s.sent[..own] == before.sent
      && got == |before.delivered| < |s.delivered|
      && i < |s.served| && j < |s.sent| && s.served[i] == Arrived(s.sent[j])
      && FramesOf(s.served[..i]) == s.sent[..j]
      && IsLoad(s.sent[j].opcode) && Count(s.sent[..j], IsLoadFrame) == got
      && ParseResult(s.delivered[got]) == Some(HostView(Outcome(b, Ticked(b, Serve(b, d, s.served[..i]).device), s.sent[j])))
      && (j == own <==> Count(before.sent, IsLoadFrame) == |before.delivered|)
  {
    hide Run, Serve, Outcome, ParseResult, Blocking, DeviceSide, HostSide;
    var actions := front + [Push(f)] + rest;
    var before, s := Run(b, Initial(d), front), Run(b, Initial(d), actions);
    RunKeeps(b, d, actions);
    CallRecalled(b, d, front, Push(f), rest);
    assert AnswerAccounted(s, s.answers[n]);
    var own := |before.sent|;
    assert s.sent[..own] == before.sent;
    i, j := ResultsInOrder(b, d, actions, quiet, s.answers[n].got);
    if j < own { CountsDiffer(s.sent, j, own, IsLoadFrame); }
    if own < j { CountsDiffer(s.sent, own, j, IsLoadFrame); }
  }

  /**
    The documented reading of `push`, that it waits for the result of the module it sends, fails whenever a
    result is outstanding: for any two frames, the second call is handed the outcome of the first.
  */
  lemma PushMayReturnEarlierResult<E(!new)>(b: Board<E>, d: Device<E>, f: Frame, g: Frame, quiet: E -> bool)
    requires Blocking(b.executor, quiet) && quiet(d.exec)
    requires IsLoad(f.opcode) && IsLoad(g.opcode)
    ensures var s := Run(b, Initial(d), [PushAsync(f), Push(g), DeviceServes, Receive]);
      && s.answers == [PushAnswer(Ticket(1, 0), 0)]
      && s.delivered == [Write(ResultValue(Outcome(b, Ticked(b, d), f)))]
      && s.sent == [f, g]
  {
    hide Write, Step, Outcome, Run, Next, Enabled;
    TwoPushes(b, d, f, g);
    var s := Next(b, Next(b, Initial(d), PushAsync(f)), Push(g));
    OldestIsTaken(b, d, s, f, quiet);
    RunFour(b, Initial(d), PushAsync(f), Push(g), DeviceServes, Receive);
  }

  lemma RunFour<E>(b: Board<E>, s: State<E>, a0: Action, a1: Action, a2: Action, a3: Action)
    requires Enabled(s, a0) && Enabled(Next(b, s, a0), a1)
    requires Enabled(Next(b, Next(b, s, a0), a1), a2)
    requires Enabled(Next(b, Next(b, Next(b, s, a0), a1), a2), a3)
    ensures Run(b, s, [a0, a1, a2, a3]) == Next(b, Next(b, Next(b, Next(b, s, a0), a1), a2), a3)
  {
    hide Run, Next, Enabled;
    var s1 := Next(b, s, a0);
    var s2 := Next(b, s1, a1);
    var s3 := Next(b, s2, a2);
    RunFirst(b, s, a0, [a1, a2, a3]);
    RunFirst(b, s1, a1, [a2, a3]);
    RunFirst(b, s2, a2, [a3]);
    RunFirst(b, s3, a3, []);
    RunNone(b, Next(b, s3, a3));
    assert [a0] + [a1, a2, a3] == [a0, a1, a2, a3];
    assert [a1] + [a2, a3] == [a1, a2, a3];
    assert [a2] + [a3] == [a2, a3] && [a3] + [] == [a3];
  }

  lemma TwoPushes<E>(b: Board<E>, d: Device<E>, f: Frame, g: Frame)
    requires IsLoad(f.opcode) && IsLoad(g.opcode)
    ensures Enabled(Initial(d), PushAsync(f)) && Enabled(Next(b, Initial(d), PushAsync(f)), Push(g))
    ensures var s := Next(b, Next(b, Initial(d), PushAsync(f)), Push(g));
      && s.device == d && s.toDevice == [f, g] && s.toHost == [] && s.sent == [f, g]
      && s.delivered == [] && s.answers == [] && s.waiting == ForResult(Some(Ticket(1, 0)))
  {
    CountLast([], f, IsLoadFrame);
    assert [] + [f] == [f];
  }

  /** With nothing delivered yet, a waiting push is handed the outcome of the first frame in the channel. */
  lemma OldestIsTaken<E(!new)>(b: Board<E>, d: Device<E>, s: State<E>, f: Frame, quiet: E -> bool)
    requires Blocking(b.executor, quiet) && quiet(d.exec) && IsLoad(f.opcode)
    requires s.device == d && s.toDevice != [] && s.toDevice[0] == f && s.toHost == []
    requires s.waiting.ForResult? && s.waiting.push.Some? && s.delivered == [] && s.answers == []
    ensures Enabled(s, DeviceServes) && Enabled(Next(b, s, DeviceServes), Receive)
    ensures var t := Next(b, Next(b, s, DeviceServes), Receive);
      && t.answers == [PushAnswer(s.waiting.push.value, 0)]
      && t.delivered == [Write(ResultValue(Outcome(b, Ticked(b, d), f)))]
      && t.sent == s.sent
  {
    hide Write, Step, Outcome;
    OneReply(b, d, f, quiet);
  }

  lemma RunNone<E>(b: Board<E>, s: State<E>)
    ensures Run(b, s, []) == s
  {
  }

  lemma RunLast<E>(b: Board<E>, s: State<E>, actions: seq<Action>, a: Action)
    ensures var before := Run(b, s, actions);
      Run(b, s, actions + [a]) == if Enabled(before, a) then Next(b, before, a) else before
  {
    hide Enabled, Next;
    assert (actions + [a])[..|actions|] == actions;
  }

  lemma OneReply<E(!new)>(b: Board<E>, d: Device<E>, f: Frame, quiet: E -> bool)
    requires Blocking(b.executor, quiet) && quiet(d.exec) && IsLoad(f.opcode)
    ensures Step(b, d, Arrived(f)).out == [Reply(OP_EXEC_RESULT, Write(ResultValue(Outcome(b, Ticked(b, d), f))))]
  {
    hide Write, Refusal, Permitted;
  }

  // ---------- status replies ----------

  /** No stop or status request is given up in the run. */
  predicate Patient<E>(b: Board<E>, s: State<E>, actions: seq<Action>)
    decreases |actions|
  {
    actions == [] ||
    (var front := actions[..|actions| - 1];
     Patient(b, s, front) && !(Run(b, s, front).waiting.ForStatus? && actions[|actions| - 1] == GiveUp))
  }

  /** Requests and replies are level, but for the one being waited for. */
  ghost predicate Level(s: State) {
    && Count(s.sent, IsStatusRequest) == |s.statuses| + (if s.waiting.ForStatus? then 1 else 0)
    && (s.waiting.ForStatus? ==> InStep(s, s.waiting.request))
    && (forall i :: 0 <= i < |s.answers| && s.answers[i].StatusAnswer? ==> InStep(s, s.answers[i].ticket))
  }

  /** As many replies had been taken as requests had been sent before the ticket's own. */
  predicate InStep(s: State, t: Ticket) {
    t.at <= |s.sent| && Count(s.sent[..t.at], IsStatusRequest) == t.taken
  }

  lemma InStepNow(s: State, sent: seq<Frame>, t: Ticket)
    requires sent <= s.sent && t.at == |sent| && Count(sent, IsStatusRequest) == t.taken
    ensures InStep(s, t)
  {
    assert s.sent[..t.at] == sent;
  }

  lemma InStepKept<E>(s: State<E>, t: State<E>)
    requires s.sent <= t.sent
    ensures forall ticket :: InStep(s, ticket) ==> InStep(t, ticket)
  {
    forall ticket | InStep(s, ticket)
      ensures InStep(t, ticket)
    {
      assert t.sent[..ticket.at] == s.sent[..ticket.at];
    }
  }

  lemma LevelNext<E>(b: Board<E>, d: Device<E>, s: State<E>, a: Action)
    requires Invariant(b, d, s) && Level(s) && Enabled(s, a)
    requires !(s.waiting.ForStatus? && a == GiveUp)
    ensures Level(Next(b, s, a))
  {
    hide Next, Invariant, Count, InStep;
    CountNext(b, d, s, a);
    TicketsNext(b, s, a);
  }

  lemma CountNext<E>(b: Board<E>, d: Device<E>, s: State<E>, a: Action)
    requires Invariant(b, d, s) && Enabled(s, a) && !(s.waiting.ForStatus? && a == GiveUp)
    requires Count(s.sent, IsStatusRequest) == |s.statuses| + (if s.waiting.ForStatus? then 1 else 0)
    ensures var t := Next(b, s, a);
      Count(t.sent, IsStatusRequest) == |t.statuses| + (if t.waiting.ForStatus? then 1 else 0)
  {
    hide Step, Texts, Serve, Invariant, Count;
    ReachableCounts(b, d, s);
    match a
    case PushAsync(f) => CountLast(s.sent, f, IsStatusRequest);
    case Push(f) => CountLast(s.sent, f, IsStatusRequest);
    case Request(opcode) => CountLast(s.sent, Frame(opcode, []), IsStatusRequest);
    case SetParameter(slot, value) => CountLast(s.sent, ParamFrame(slot, value), IsStatusRequest);
    case Receive =>
      var r, rest := s.toHost[0], s.toHost[1..];
      assert s.toHost == [r] + rest;
      TextsAppend(OP_STATUS_RESPONSE, [r], rest);
      TextsOne(OP_STATUS_RESPONSE, r);
    case Collect =>
    case GiveUp =>
    case DeviceServes =>
    case DeviceIdles =>
  }

  lemma TicketsNext<E>(b: Board<E>, s: State<E>, a: Action)
    requires Level(s) && Enabled(s, a)
    ensures var t := Next(b, s, a);
      && (t.waiting.ForStatus? ==> InStep(t, t.waiting.request))
      && (forall i :: 0 <= i < |t.answers| && t.answers[i].StatusAnswer? ==> InStep(t, t.answers[i].ticket))
  {
    hide Step, Count, InStep;
    InStepKept(s, Next(b, s, a));
    if a.Request? { InStepNow(Next(b, s, a), s.sent, StatusTicket(s)); }
  }

  lemma CountLast(frames: seq<Frame>, f: Frame, kind: Frame -> bool)
    ensures Count(frames + [f], kind) == Count(frames, kind) + (if kind(f) then 1 else 0)
  {
    assert (frames + [f])[..|frames|] == frames;
  }

  lemma {:induction false} PatientRunIsLevel<E>(b: Board<E>, d: Device<E>, actions: seq<Action>)
    requires Patient(b, Initial(d), actions)
    ensures Level(Run(b, Initial(d), actions))
    decreases |actions|
  {
    if actions != [] {
      hide Level, Next, Enabled, Invariant;
      var front := actions[..|actions| - 1];
      PatientRunIsLevel(b, d, front);
      RunKeeps(b, d, front);
      var before := Run(b, Initial(d), front);
      if Enabled(before, actions[|actions| - 1]) { LevelNext(b, d, before, actions[|actions| - 1]); }
    }
  }

  /** In every run, under every executor: the `k`-th status reply taken is the answer to the `k`-th request. */
  lemma StatusesInOrder<E>(b: Board<E>, d: Device<E>, actions: seq<Action>, k: nat) returns (i: nat, j: nat)
    requires k < |Run(b, Initial(d), actions).statuses|
    ensures var s := Run(b, Initial(d), actions);
      && i < |s.served| && j < |s.sent| && s.served[i] == Arrived(s.sent[j])
      && FramesOf(s.served[..i]) == s.sent[..j]
      && IsStatusRequest(s.sent[j]) && Count(s.sent[..j], IsStatusRequest) == k
      && [s.statuses[k]] == AnswerOn(b, Serve(b, d, s.served[..i]).device, s.served[i])
  {
    hide Run, Serve, Texts, Answers, AnswerOn;
    var s := Run(b, Initial(d), actions);
    RunKeeps(b, d, actions);
    StatusReplies(b, d, s.served);
    assert s.statuses[k] == (s.statuses + Texts(OP_STATUS_RESPONSE, s.toHost))[k];
    i := KthAnswer(b, d, s.served, k);
    FramesPrefix(s.served, i);
    j := |FramesOf(s.served[..i])|;
    assert s.sent[..j] == FramesOf(s.served)[..j];
  }

  /**
    In every run, under every executor: a stop or status request reads the reply to its own frame exactly if every
    earlier status reply had been taken when it was made; otherwise it reads the oldest one that had not.
  */
  lemma RequestReadsOwnReplyIff<E>(b: Board<E>, d: Device<E>, front: seq<Action>, opcode: u8, rest: seq<Action>, n: nat)
      returns (i: nat, j: nat)
    requires Enabled(Run(b, Initial(d), front), Request(opcode))
    requires var s := Run(b, Initial(d), front + [Request(opcode)] + rest);
      n < |s.answers| && s.answers[n].StatusAnswer? && s.answers[n].ticket.at == |Run(b, Initial(d), front).sent|
    ensures var before, s := Run(b, Initial(d), front), Run(b, Initial(d), front + [Request(opcode)] + rest);
      var own, got := |before.sent|, s.answers[n].got;
      && own < |s.sent| && s.sent[own] == Frame(opcode, []) && s.sent[..own] == before.sent
      && got == |before.statuses| < |s.statuses|
      && i < |s.served| && j < |s.sent| && s.served[i] == Arrived(s.sent[j])
      && FramesOf(s.served[..i]) == s.sent[..j]
      && IsStatusRequest(s.sent[j]) && Count(s.sent[..j], IsStatusRequest) == got
      && [s.statuses[got]] == AnswerOn(b, Serve(b, d, s.served[..i]).device, s.served[i])
      && (j == own <==> Count(before.sent, IsStatusRequest) == |before.statuses|)
  {
    hide Run, Serve, AnswerOn, DeviceSide, HostSide;
    var actions := front + [Request(opcode)] + rest;
    var before, s := Run(b, Initial(d), front), Run(b, Initial(d), actions);
    RunKeeps(b, d, actions);
    CallRecalled(b, d, front, Request(opcode), rest);
    assert AnswerAccounted(s, s.answers[n]);
    var own := |before.sent|;
    assert s.sent[..own] == before.sent;
    i, j := StatusesInOrder(b, d, actions, s.answers[n].got);
    if j < own { CountsDiffer(s.sent, j, own, IsStatusRequest); }
    if own < j { CountsDiffer(s.sent, own, j, IsStatusRequest); }
  }

  /** As long as no request is given up, every stop and status request reads the answer to its own frame. */
  lemma RequestsReadOwnReplies<E>(b: Board<E>, d: Device<E>, actions: seq<Action>, n: nat) returns (i: nat)
    requires Patient(b, Initial(d), actions)
    requires n < |Run(b, Initial(d), actions).answers| && Run(b, Initial(d), actions).answers[n].StatusAnswer?
    ensures var s := Run(b, Initial(d), actions);
      var own, got := s.answers[n].ticket.at, s.answers[n].got;
      && i < |s.served| && own < |s.sent| && s.served[i] == Arrived(s.sent[own]) && IsStatusRequest(s.sent[own])
      && FramesOf(s.served[..i]) == s.sent[..own]
      && got < |s.statuses| && [s.statuses[got]] == AnswerOn(b, Serve(b, d, s.served[..i]).device, s.served[i])
  {
    hide Run, Serve, AnswerOn, DeviceSide, HostSide;
    var s := Run(b, Initial(d), actions);
    RunKeeps(b, d, actions);
    PatientRunIsLevel(b, d, actions);
    var a := s.answers[n];
    assert AnswerAccounted(s, a) && InStep(s, a.ticket);
    var j;
    i, j := StatusesInOrder(b, d, actions, a.got);
    if j < a.ticket.at { CountsDiffer(s.sent, j, a.ticket.at, IsStatusRequest); }
    if a.ticket.at < j { CountsDiffer(s.sent, a.ticket.at, j, IsStatusRequest); }
  }

  // ---------- the host's loops ----------

  /**
    What a call does at once, as the device class does it: `wait_result` and `push` hand out the oldest queued result
    if there is one and wait otherwise, a request waits, and giving up changes nothing else.
  */
  lemma CallsAtOnce<E>(b: Board<E>, s: State<E>, f: Frame, opcode: u8)
    requires s.waiting == Nothing
    ensures var t := Next(b, s, Collect);
      if s.pending != [] then t == s.(pending := s.pending[1..], delivered := s.delivered + [s.pending[0]])
      else t == s.(waiting := ForResult(None))
    ensures IsLoad(f.opcode) ==>
      var t, ticket := Next(b, s, Push(f)), Ticket(|s.sent|, |s.delivered|);
      var sent := s.(sent := s.sent + [f], toDevice := s.toDevice + [f]);
      if s.pending != [] then
        t == sent.(pending := s.pending[1..], delivered := s.delivered + [s.pending[0]],
                   answers := s.answers + [PushAnswer(ticket, |s.delivered|)])
      else t == sent.(waiting := ForResult(Some(ticket)))
    ensures IsLoad(f.opcode) ==> Next(b, s, PushAsync(f)) == s.(sent := s.sent + [f], toDevice := s.toDevice + [f])
    ensures opcode == 0x05 || opcode == 0x06 ==>
      var request := Frame(opcode, []);
      Next(b, s, Request(opcode)) == s.(sent := s.sent + [request], toDevice := s.toDevice + [request],
                                        waiting := ForStatus(Ticket(|s.sent|, |s.statuses|)))
    ensures forall w :: w != Nothing ==> Next(b, s.(waiting := w), GiveUp) == s
  {
  }

  function Receives(n: nat): seq<Action> {
    if n == 0 then [] else [Receive] + Receives(n - 1)
  }

  function Wanted(s: State): u8 {
    if s.waiting.ForResult? then OP_EXEC_RESULT else OP_STATUS_RESPONSE
  }

  /**
    A waiting host that receives step by step does what the router loop of `MiloDevice` does in one go: the same
    frames taken, the same results queued, and the wait ends with the same answer.
  */
  lemma {:induction false} ReceivesAreRead<E>(b: Board<E>, s: State<E>)
    requires s.waiting != Nothing
    ensures var r := Read(Wanted(s), Arrivals(s.toHost), s.pending);
      var t := Run(b, s, Receives(|r.taken|));
      && s.toHost == r.taken + t.toHost && t.pending == r.pending
      && (t.waiting == if r.answer.Some? then Nothing else s.waiting)
      && (r.answer.None? ==> t.toHost == [])
      && t.delivered == s.delivered + (if s.waiting.ForResult? && r.answer.Some? then [r.answer.value] else [])
      && t.statuses == s.statuses + Texts(OP_STATUS_RESPONSE, r.taken)
      && t.sent == s.sent && t.toDevice == s.toDevice && t.device == s.device
    decreases |s.toHost|
  {
    hide Run, Read, Texts, Take, Route;
    var want := Wanted(s);
    MiloDevice.ReadTurn(want, Arrivals(s.toHost), s.pending);
    if s.toHost == [] {
      RunNone(b, s);
      TextsOne(OP_STATUS_RESPONSE, Reply(0, []));
      assert s.statuses + [] == s.statuses && s.delivered + [] == s.delivered;
    } else {
      var reply := s.toHost[0];
      var t := Take(s);
      TakeTurn(s);
      assert Arrivals(s.toHost)[1..] == Arrivals(s.toHost[1..]);
      if reply.opcode == want {
        RunFirst(b, s, Receive, []);
        RunNone(b, t);
        assert Receives(1) == [Receive] + [];
      } else {
        ReceivesAreRead(b, t);
        var more := Read(want, Arrivals(t.toHost), t.pending);
        RunFirst(b, s, Receive, Receives(|more.taken|));
        TextsAppend(OP_STATUS_RESPONSE, [reply], more.taken);
        Assoc(s.statuses, Texts(OP_STATUS_RESPONSE, [reply]), Texts(OP_STATUS_RESPONSE, more.taken));
      }
    }
  }

  lemma TakeTurn<E>(s: State<E>)
    requires s.waiting != Nothing && s.toHost != []
    ensures var t, r := Take(s), s.toHost[0];
      && s.toHost == [r] + t.toHost && t.toHost == s.toHost[1..]
      && t.pending == Route(Wanted(s), r, s.pending).pending
      && t.statuses == s.statuses + Texts(OP_STATUS_RESPONSE, [r])
      && t.sent == s.sent && t.toDevice == s.toDevice && t.device == s.device
      && (if r.opcode == Wanted(s) then
            t.waiting == Nothing && t.pending == s.pending && t.delivered == s.delivered + (if s.waiting.ForResult? then [r.text] else [])
          else t.waiting == s.waiting && t.delivered == s.delivered)
  {
    hide Texts;
    TextsOne(OP_STATUS_RESPONSE, s.toHost[0]);
    assert s.statuses + [] == s.statuses && s.delivered + [] == s.delivered;
  }

  // ---------- progress ----------

  /** The waiting call has something to wait for. */
  predicate Outstanding(s: State) {
    && (s.waiting.ForResult? ==> |s.delivered| < Count(s.sent, IsLoadFrame))
    && (s.waiting.ForStatus? ==> |s.statuses| < Count(s.sent, IsStatusRequest))
  }

  predicate Moves(actions: seq<Action>) {
    forall i :: 0 <= i < |actions| ==> actions[i] == Receive || actions[i] == DeviceServes
  }

  /** A waiting host with a reply outstanding finds a frame to take, or the receiver one to serve. */
  lemma NeverStuck<E(!new)>(b: Board<E>, d: Device<E>, s: State<E>, quiet: E -> bool)
    requires Invariant(b, d, s) && Blocking(b.executor, quiet) && quiet(d.exec)
    requires s.waiting != Nothing && Outstanding(s)
    ensures s.toHost != [] || s.toDevice != []
  {
    hide Serve, Blocking, DeviceSide, HostSide, Outcomes;
    if s.toHost == [] && s.toDevice == [] {
      ReachableCounts(b, d, s);
      ReachableResults(b, d, s, quiet);
      assert false;
    }
  }

  /** From any reachable state, letting host and receiver move ends the wait. */
  lemma {:induction false} WaitEnds<E(!new)>(b: Board<E>, d: Device<E>, s: State<E>, quiet: E -> bool) returns (moves: seq<Action>)
    requires Invariant(b, d, s) && Blocking(b.executor, quiet) && quiet(d.exec) && Outstanding(s)
    ensures Moves(moves) && Run(b, s, moves).waiting == Nothing
    decreases |s.toDevice|, |s.toHost|
  {
    hide Invariant, Blocking, Run, Step;
    if s.waiting == Nothing {
      RunNone(b, s);
      return [];
    }
    NeverStuck(b, d, s, quiet);
    var a := if s.toHost != [] then Receive else DeviceServes;
    var t := Next(b, s, a);
    NextKeeps(b, d, s, a);
    var more := WaitEnds(b, d, t, quiet);
    RunFirst(b, s, a, more);
    return [a] + more;
  }

  lemma {:induction false} RunFirst<E>(b: Board<E>, s: State<E>, a: Action, more: seq<Action>)
    requires Enabled(s, a)
    ensures Run(b, s, [a] + more) == Run(b, Next(b, s, a), more)
    decreases |more|
  {
    hide Enabled, Next;
    if more == [] {
      assert [a] + more == [a];
      RunLast(b, s, [], a);
      assert [] + [a] == [a];
    } else {
      var front := more[..|more| - 1];
      RunFirst(b, s, a, front);
      assert ([a] + more)[..|more|] == [a] + front;
    }
  }
}
