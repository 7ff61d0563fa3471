/** The CTAPHID command protocol (transport/ctaphid/transport.go, commands.go): one command at a time
    under the command mutex, CBOR and CANCEL writes under the write mutex, CHANNEL_BUSY retry,
    cancel-and-drain, and any number of concurrent Cancel and Close calls. */
module HidTransport {
  import opened Bytes
  import opened HidFraming

  const CBOR: byte := 0x10
  const ERR_CHANNEL_BUSY: byte := 0x06

  datatype AnyRequest = Request(command: byte, data: bytes)

  /** A request that got past NewMessage's size check. */
  type Request = r: AnyRequest | r.command < INIT_BIT && |r.data| <= MAX_PAYLOAD witness Request(CBOR, [])

  predicate IsCbor(r: Request) {
    r.command == CBOR
  }

  /** How many reports a request takes. */
  function ReportCount(r: Request): (n: nat)
    ensures n > 0
  {
    |Packets([0, 0, 0, 0], r.command, r.data)|
  }

  /** A whole message on this channel: a keepalive, or the one terminal answer to a request. */
  datatype Answer = Keepalive | Reply(command: byte, payload: bytes) | Error(code: byte)

  /** The command holding the mutex. `cut` is whether a CANCEL is on the wire behind its last report. */
  datatype Op =
    | Free
    | Entered(request: Request)
    | Writing(request: Request, session: nat, done: nat, cut: bool)
    | Reading(request: Request)
    | Backoff(request: Request)
    | CancelReady(request: Request)
    | CancelWriting(request: Request)
    | Draining(request: Request)

  /** Who put a message on the wire: a command its request, or Cancel its one report. */
  datatype Origin = Command(request: Request) | Cancel

  /** One report on the wire: the number of its message and its place in that message. */
  datatype Sent = Sent(session: nat, index: nat)

  /** The answer a caller of `request` got, the attempt-th request the authenticator received. A reply
      to another command than the caller's is returned to it as an unexpected command. */
  datatype Exchange = Exchange(attempt: int, answer: int, request: Request, reply: Answer)

  /** `requests` are those that reached the authenticator to the last report. `consumed` counts the
      terminal answers read, `abandoned` the calls that ended after their request had arrived without
      reading or draining its answer. `torn` records that a request went on after a CANCEL had been put
      on the wire behind one of its reports. */
  datatype System = System(
    op: Op,
    writeMu: bool,
    canceler: bool,
    closed: bool,
    torn: bool,
    sessions: seq<Origin>,
    log: seq<Sent>,
    requests: seq<Request>,
    answers: seq<Answer>,
    queue: seq<Answer>,
    consumed: nat,
    abandoned: nat,
    returned: seq<Exchange>)

  /** A write succeeds, fails with a device error, or is given up with any other error, such as the bare
      error of its context; in the last two cases the report may or may not have arrived. */
  datatype WriteResult = Ok | Failed(seen: bool) | GivenUp(seen: bool)

  predicate Arrives(w: WriteResult) {
    w.Ok? || w.seen
  }

  datatype Event =
    | Start(request: Request)
    | EnterCanceled
    | BeginWrite
    | WriteReport(write: WriteResult)
    | ReadMessage
    | ReadFault
    | ContextDone
    | DrainAcquire
    | DrainWrite(write: WriteResult)
    | RetryTimer
    | RetryCanceled
    | CancelAcquire
    | CancelWrite(write: WriteResult)
    | CloseDevice
    | PeerKeepalive
    | PeerAnswer(answer: Answer)

  predicate AnswersTo(a: Answer, r: Request) {
    match a
    case Keepalive => false
    case Reply(command, _) => command == r.command
    case Error(_) => true
  }

  predicate Enabled(s: System, e: Event) {
    match e
    case Start(_) => s.op.Free?
    case EnterCanceled => s.op.Entered? && IsCbor(s.op.request)
    case BeginWrite => s.op.Entered? && (IsCbor(s.op.request) ==> !s.writeMu)
    case WriteReport(w) => s.op.Writing? && s.op.done < ReportCount(s.op.request) && (s.closed ==> !w.Ok?)
    case ReadMessage => (s.op.Reading? || s.op.Draining?) && s.queue != []
    case ReadFault => s.op.Reading? || s.op.Draining?
    case ContextDone => s.op.Reading?
    case DrainAcquire => s.op.CancelReady? && !s.writeMu
    case DrainWrite(w) => s.op.CancelWriting? && (s.closed ==> !w.Ok?)
    case RetryTimer => s.op.Backoff?
    case RetryCanceled => s.op.Backoff?
    case CancelAcquire => !s.writeMu
    case CancelWrite(w) => s.canceler && (s.closed ==> !w.Ok?)
    case CloseDevice => true
    // The authenticator answers every request whose last report arrived, once and in order, and ignores
    // a CANCEL that finds it idle.
    case PeerKeepalive => |s.answers| < |s.requests|
    case PeerAnswer(a) => |s.answers| < |s.requests| && AnswersTo(a, s.requests[|s.answers|])
  }

  predicate IsLast(op: Op)
    requires op.Writing?
  {
    op.done + 1 == ReportCount(op.request)
  }

  /** Where a write of one report leaves the command. */
  function AfterReport(op: Op, w: WriteResult): Op
    requires op.Writing?
  {
    if !w.Ok? then Free else if IsLast(op) then Reading(op.request) else op.(done := op.done + 1, cut := false)
  }

  /** One report of the request. The last one to arrive hands it to the authenticator, whether or not
      the command then waits; a failed write closes the device, a write given up does not. */
  function WroteReport(s: System, w: WriteResult): System
    requires s.op.Writing?
  {
    var arrived := Arrives(w) && IsLast(s.op);
    s.(op := AfterReport(s.op, w),
       writeMu := s.writeMu && !(IsCbor(s.op.request) && !AfterReport(s.op, w).Writing?),
       closed := s.closed || w.Failed?,
       torn := s.torn || (Arrives(w) && s.op.cut),
       log := if Arrives(w) then s.log + [Sent(s.op.session, s.op.done)] else s.log,
       requests := if arrived then s.requests + [s.op.request] else s.requests,
       abandoned := if arrived && w.GivenUp? then s.abandoned + 1 else s.abandoned)
  }

  /** What the read loop makes of one message; a keepalive is skipped. */
  function Took(s: System, a: Answer): System
    requires s.op.Reading? || s.op.Draining?
  {
    if a.Keepalive? then s
    else
      var t := s.(consumed := s.consumed + 1);
      if s.op.Draining? then t.(op := Free)
      else if a == Error(ERR_CHANNEL_BUSY) then t.(op := Backoff(s.op.request))
      else t.(op := Free, returned := s.returned + [Exchange(|s.requests| - 1, s.consumed, s.op.request, a)])
  }

  /** A CANCEL report, from the drain or from a caller of Cancel. */
  function WroteCancel(s: System, w: WriteResult): System {
    s.(op := if Arrives(w) && s.op.Writing? && s.op.done > 0 then s.op.(cut := true) else s.op,
       sessions := s.sessions + [Cancel],
       writeMu := false,
       closed := s.closed || w.Failed?,
       log := if Arrives(w) then s.log + [Sent(|s.sessions|, 0)] else s.log)
  }

  /** The drain goes on only behind a written CANCEL; a CANCEL given up leaves the answer owed. */
  function WroteDrainCancel(s: System, w: WriteResult): System
    requires s.op.CancelWriting?
  {
    WroteCancel(s, w).(op := if w.Ok? then Draining(s.op.request) else Free,
                       abandoned := if w.GivenUp? then s.abandoned + 1 else s.abandoned)
  }

  predicate Writes(e: Event) {
    e.BeginWrite? || e.WriteReport? || e.DrainAcquire? || e.DrainWrite? || e.CancelAcquire? || e.CancelWrite?
  }

  function ApplyWrite(s: System, e: Event): System
    requires Enabled(s, e) && Writes(e)
  {
    match e
    case BeginWrite =>
      s.(op := Writing(s.op.request, |s.sessions|, 0, false), sessions := s.sessions + [Command(s.op.request)],
         writeMu := s.writeMu || IsCbor(s.op.request))
    case WriteReport(w) => WroteReport(s, w)
    case DrainAcquire => s.(op := CancelWriting(s.op.request), writeMu := true)
    case DrainWrite(w) => WroteDrainCancel(s, w)
    case CancelAcquire => s.(canceler := true, writeMu := true)
    case CancelWrite(w) => WroteCancel(s, w).(canceler := false)
  }

  predicate Reads(e: Event) {
    e.ReadMessage? || e.PeerKeepalive? || e.PeerAnswer?
  }

  function ApplyRead(s: System, e: Event): System
    requires Enabled(s, e) && Reads(e)
  {
    match e
    case ReadMessage => Took(s.(queue := s.queue[1..]), s.queue[0])
    case PeerKeepalive => s.(queue := s.queue + [Keepalive])
    case PeerAnswer(a) => s.(queue := s.queue + [a], answers := s.answers + [a])
  }

  function ApplyControl(s: System, e: Event): System
    requires Enabled(s, e) && !Writes(e) && !Reads(e)
  {
    match e
    case Start(request) => s.(op := Entered(request))
    case EnterCanceled => s.(op := Free)
    case ReadFault => s.(op := Free, closed := true)
    case ContextDone =>
      if IsCbor(s.op.request) then s.(op := CancelReady(s.op.request)) else s.(op := Free, abandoned := s.abandoned + 1)
    case RetryTimer => s.(op := Entered(s.op.request))
    case RetryCanceled => s.(op := Free)
    case CloseDevice => s.(closed := true)
  }

  function Apply(s: System, e: Event): System
    requires Enabled(s, e)
  {
    if Writes(e) then ApplyWrite(s, e) else if Reads(e) then ApplyRead(s, e) else ApplyControl(s, e)
  }

  const INITIAL := System(Free, false, false, false, false, [], [], [], [], [], 0, 0, [])

  ghost predicate IsRun(states: seq<System>, events: seq<Event>) {
    && |states| == |events| + 1
    && states[0] == INITIAL
    && forall i :: 0 <= i < |events| ==> IsStep(states, events, i)
  }

  ghost predicate IsStep(states: seq<System>, events: seq<Event>, i: nat)
    requires |states| == |events| + 1 && i < |events|
  {
    Enabled(states[i], events[i]) && states[i + 1] == Apply(states[i], events[i])
  }

  // ------------------------------------------------------------------------ the write mutex

  predicate CommandHoldsWrite(op: Op) {
    (op.Writing? && IsCbor(op.request)) || op.CancelWriting?
  }

  /** The mutex has one holder, so no CANCEL falls between the reports of a CBOR request. */
  predicate MutexInvariant(s: System) {
    && (s.writeMu <==> CommandHoldsWrite(s.op) || s.canceler)
    && !(CommandHoldsWrite(s.op) && s.canceler)
    && (s.op.Writing? && s.op.cut ==> !IsCbor(s.op.request) && s.op.done > 0)
    && (s.op.Writing? ==> s.op.done < ReportCount(s.op.request))
  }

  lemma StepKeepsMutex(s: System, e: Event)
    requires MutexInvariant(s) && Enabled(s, e)
    ensures MutexInvariant(Apply(s, e))
  {
    if Writes(e) {
      WriteKeepsMutex(s, e);
    }
  }

  lemma WriteKeepsMutex(s: System, e: Event)
    requires MutexInvariant(s) && Enabled(s, e) && Writes(e)
    ensures MutexInvariant(ApplyWrite(s, e))
  {}

  // ---------------------------------------------------------------------------- the wire

  /** The i-th report directly follows the one before it in its message. */
  predicate Follows(log: seq<Sent>, i: nat)
    requires i < |log|
  {
    log[i].index > 0 ==> i > 0 && log[i - 1] == Sent(log[i].session, log[i].index - 1)
  }

  /** Every message on the wire is in one piece, as far as it got. */
  ghost predicate Unbroken(log: seq<Sent>) {
    forall i :: 0 <= i < |log| ==> Follows(log, i)
  }

  /** Every report belongs to a message that has that many. */
  ghost predicate Recorded(sessions: seq<Origin>, log: seq<Sent>) {
    forall i :: 0 <= i < |log| ==>
      && log[i].session < |sessions|
      && log[i].index < (match sessions[log[i].session] case Command(r) => ReportCount(r) case Cancel => 1)
  }

  predicate IsCancel(sessions: seq<Origin>, session: nat) {
    session < |sessions| && sessions[session].Cancel?
  }

  predicate IsOther(sessions: seq<Origin>, session: nat) {
    session < |sessions| && sessions[session].Command? && !IsCbor(sessions[session].request)
  }

  /** A report that does not follow belongs to a command other than CBOR, and a CANCEL is before it. */
  ghost predicate TornByCancel(sessions: seq<Origin>, log: seq<Sent>) {
    forall i :: 0 <= i < |log| && !Follows(log, i) ==>
      i > 0 && IsCancel(sessions, log[i - 1].session) && IsOther(sessions, log[i].session)
  }

  /** The last report on the wire is the writer's previous one, or a CANCEL that cut in. */
  ghost predicate WriterFollows(op: Op, sessions: seq<Origin>, log: seq<Sent>) {
    op.Writing? ==>
      && op.session < |sessions| && sessions[op.session] == Command(op.request)
      && (op.done > 0 ==>
            && log != []
            && if op.cut then IsCancel(sessions, log[|log| - 1].session)
               else log[|log| - 1] == Sent(op.session, op.done - 1))
  }

  ghost predicate Wire(sessions: seq<Origin>, log: seq<Sent>, torn: bool) {
    Recorded(sessions, log) && TornByCancel(sessions, log) && (Unbroken(log) <==> !torn)
  }

  ghost predicate WireInvariant(s: System) {
    Wire(s.sessions, s.log, s.torn) && WriterFollows(s.op, s.sessions, s.log)
  }

  lemma NewSession(sessions: seq<Origin>, log: seq<Sent>, torn: bool, m: Origin)
    requires Wire(sessions, log, torn)
    ensures Wire(sessions + [m], log, torn)
  {}

  lemma FollowsStays(log: seq<Sent>, next: Sent)
    ensures forall i :: 0 <= i < |log| ==> (Follows(log + [next], i) <==> Follows(log, i))
  {}

  /** A report in its place keeps every message in the state it was in. */
  lemma AppendFollowing(sessions: seq<Origin>, log: seq<Sent>, torn: bool, next: Sent)
    requires Wire(sessions, log, torn) && Recorded(sessions, [next])
    requires next.index > 0 ==> log != [] && log[|log| - 1] == Sent(next.session, next.index - 1)
    ensures Wire(sessions, log + [next], torn)
  {
    FollowsStays(log, next);
    assert [next][0] == next && Follows(log + [next], |log|);
    if !torn {
      assert Unbroken(log + [next]);
    } else {
      var i :| 0 <= i < |log| && !Follows(log, i);
      assert !Follows(log + [next], i);
    }
  }

  /** A report behind a CANCEL tears its message. */
  lemma AppendTorn(sessions: seq<Origin>, log: seq<Sent>, torn: bool, next: Sent)
    requires Wire(sessions, log, torn) && Recorded(sessions, [next]) && next.index > 0
    requires log != [] && IsCancel(sessions, log[|log| - 1].session) && IsOther(sessions, next.session)
    ensures Wire(sessions, log + [next], true)
  {
    FollowsStays(log, next);
    assert [next][0] == next && !Follows(log + [next], |log|);
  }

  lemma ReportKeepsWire(s: System, w: WriteResult)
    requires WireInvariant(s) && MutexInvariant(s) && Enabled(s, WriteReport(w))
    ensures WireInvariant(WroteReport(s, w))
  {
    var next := Sent(s.op.session, s.op.done);
    assert Recorded(s.sessions, [next]);
    if Arrives(w) {
      if s.op.cut {
        AppendTorn(s.sessions, s.log, s.torn, next);
      } else {
        AppendFollowing(s.sessions, s.log, s.torn, next);
      }
    }
  }

  lemma CancelKeepsWire(s: System, w: WriteResult)
    requires WireInvariant(s)
    ensures WireInvariant(WroteCancel(s, w))
  {
    NewSession(s.sessions, s.log, s.torn, Cancel);
    if Arrives(w) {
      AppendFollowing(s.sessions + [Cancel], s.log, s.torn, Sent(|s.sessions|, 0));
    }
  }

  lemma WriteKeepsWire(s: System, e: Event)
    requires WireInvariant(s) && MutexInvariant(s) && Enabled(s, e) && Writes(e)
    ensures WireInvariant(ApplyWrite(s, e))
  {
    if e.WriteReport? {
      ReportKeepsWire(s, e.write);
    } else if e.DrainWrite? || e.CancelWrite? {
      CancelKeepsWire(s, e.write);
    } else if e.BeginWrite? {
      NewSession(s.sessions, s.log, s.torn, Command(s.op.request));
    }
  }

  lemma ReadLeavesWire(s: System, e: Event)
    requires Enabled(s, e) && Reads(e)
    ensures var t := ApplyRead(s, e);
            t.sessions == s.sessions && t.log == s.log && t.torn == s.torn && (t.op == s.op || !t.op.Writing?)
  {}

  lemma ControlLeavesWire(s: System, e: Event)
    requires Enabled(s, e) && !Writes(e) && !Reads(e)
    ensures var t := ApplyControl(s, e);
            t.sessions == s.sessions && t.log == s.log && t.torn == s.torn && (t.op == s.op || !t.op.Writing?)
  {}

  lemma StepKeepsWire(s: System, e: Event)
    requires WireInvariant(s) && MutexInvariant(s) && Enabled(s, e)
    ensures WireInvariant(Apply(s, e))
  {
    if Writes(e) {
      WriteKeepsWire(s, e);
    } else if Reads(e) {
      ReadLeavesWire(s, e);
    } else {
      ControlLeavesWire(s, e);
    }
  }

  // ------------------------------------------------------------------------ owed answers

  function Terminal(a: Answer): seq<Answer> {
    if a.Keepalive? then [] else [a]
  }

  function Terminals(queue: seq<Answer>): seq<Answer>
    decreases |queue|
  {
    if queue == [] then [] else Terminal(queue[0]) + Terminals(queue[1..])
  }

  lemma {:induction false} TerminalsSnoc(queue: seq<Answer>, a: Answer)
    ensures Terminals(queue + [a]) == Terminals(queue) + Terminal(a)
    decreases |queue|
  {
    if queue == [] {
      assert queue + [a] == [a] && [a][1..] == [];
    } else {
      assert (queue + [a])[1..] == queue[1..] + [a];
      TerminalsSnoc(queue[1..], a);
      Associate(Terminal(queue[0]), Terminals(queue[1..]), Terminal(a));
    }
  }

  lemma {:induction false} NoTerminals(queue: seq<Answer>)
    requires queue != [] && !queue[|queue| - 1].Keepalive?
    ensures Terminals(queue) != []
  {
    var last := queue[|queue| - 1];
    assert queue == queue[..|queue| - 1] + [last];
    TerminalsSnoc(queue[..|queue| - 1], last);
  }

  /** Whether the command has written a request whose answer it has not consumed. */
  predicate Waiting(op: Op) {
    op.Reading? || op.CancelReady? || op.CancelWriting? || op.Draining?
  }

  ghost predicate Queued(requests: seq<Request>, answers: seq<Answer>, queue: seq<Answer>, consumed: nat) {
    && consumed <= |answers| <= |requests|
    && Terminals(queue) == answers[consumed..]
    && (|answers| == |requests| && queue != [] ==> !queue[|queue| - 1].Keepalive?)
    && (forall i :: 0 <= i < |answers| ==> AnswersTo(answers[i], requests[i]))
  }

  ghost predicate QueueInvariant(s: System) {
    Queued(s.requests, s.answers, s.queue, s.consumed)
  }

  /** As long as the device is open, or the command at work, the answers still owed are the
      abandoned ones and the command's own. */
  predicate DebtInvariant(s: System) {
    !s.closed || Waiting(s.op) ==> |s.requests| == s.consumed + s.abandoned + (if Waiting(s.op) then 1 else 0)
  }

  lemma SkipKeepalive(requests: seq<Request>, answers: seq<Answer>, queue: seq<Answer>, consumed: nat)
    requires Queued(requests, answers, queue, consumed) && queue != [] && queue[0].Keepalive?
    ensures Queued(requests, answers, queue[1..], consumed)
  {
    assert Terminals(queue) == [] + Terminals(queue[1..]) == Terminals(queue[1..]);
  }

  lemma TakeTerminal(requests: seq<Request>, answers: seq<Answer>, queue: seq<Answer>, consumed: nat)
    requires Queued(requests, answers, queue, consumed) && queue != [] && !queue[0].Keepalive?
    ensures consumed < |answers| && queue[0] == answers[consumed]
    ensures Queued(requests, answers, queue[1..], consumed + 1)
  {
    var rest := Terminals(queue[1..]);
    assert Terminals(queue) == [queue[0]] + rest;
    assert rest == answers[consumed..][1..] == answers[consumed + 1..];
  }

  lemma PutAnswer(requests: seq<Request>, answers: seq<Answer>, queue: seq<Answer>, consumed: nat, a: Answer)
    requires Queued(requests, answers, queue, consumed) && |answers| < |requests|
    requires a.Keepalive? || AnswersTo(a, requests[|answers|])
    ensures Queued(requests, if a.Keepalive? then answers else answers + [a], queue + [a], consumed)
  {
    TerminalsSnoc(queue, a);
    if a.Keepalive? {
      assert Terminals(queue + [a]) == Terminals(queue) + [] == Terminals(queue);
    } else {
      assert (answers + [a])[consumed..] == answers[consumed..] + [a];
    }
  }

  lemma PutRequest(requests: seq<Request>, answers: seq<Answer>, queue: seq<Answer>, consumed: nat, r: Request)
    requires Queued(requests, answers, queue, consumed)
    ensures Queued(requests + [r], answers, queue, consumed)
  {}

  predicate SameAnswers(s: System, t: System) {
    t.answers == s.answers && t.queue == s.queue && t.consumed == s.consumed && t.returned == s.returned
  }

  /** Of the writing steps only the last report of a request touches what is owed. */
  lemma WriteLeavesQueue(s: System, e: Event)
    requires Enabled(s, e) && Writes(e)
    ensures SameAnswers(s, ApplyWrite(s, e)) && ApplyWrite(s, e).abandoned >= s.abandoned
    ensures ApplyWrite(s, e).requests == s.requests || (e.WriteReport? && ApplyWrite(s, e).requests == s.requests + [s.op.request])
  {
    if e.WriteReport? {
      ReportLeavesQueue(s, e.write);
    } else if e.DrainWrite? || e.CancelWrite? {
      CancelLeavesQueue(s, e.write);
    }
  }

  lemma ReportLeavesQueue(s: System, w: WriteResult)
    requires s.op.Writing?
    ensures SameAnswers(s, WroteReport(s, w)) && WroteReport(s, w).abandoned >= s.abandoned
    ensures WroteReport(s, w).requests == s.requests || WroteReport(s, w).requests == s.requests + [s.op.request]
  {}

  lemma CancelLeavesQueue(s: System, w: WriteResult)
    ensures SameAnswers(s, WroteCancel(s, w))
    ensures WroteCancel(s, w).abandoned == s.abandoned && WroteCancel(s, w).requests == s.requests
  {}

  lemma ControlLeavesQueue(s: System, e: Event)
    requires Enabled(s, e) && !Writes(e) && !Reads(e)
    ensures var t := ApplyControl(s, e); t.answers == s.answers && t.queue == s.queue && t.consumed == s.consumed
    ensures ApplyControl(s, e).returned == s.returned && ApplyControl(s, e).abandoned >= s.abandoned
    ensures ApplyControl(s, e).requests == s.requests
  {}

  lemma TookCounts(s: System, a: Answer)
    requires s.op.Reading? || s.op.Draining?
    ensures var t := Took(s, a);
            && t.requests == s.requests && t.answers == s.answers && t.queue == s.queue
            && t.consumed == s.consumed + (if a.Keepalive? then 0 else 1)
  {}

  lemma TakeKeepsQueue(s: System)
    requires QueueInvariant(s) && Enabled(s, ReadMessage)
    ensures QueueInvariant(Took(s.(queue := s.queue[1..]), s.queue[0]))
  {
    TookCounts(s.(queue := s.queue[1..]), s.queue[0]);
    if s.queue[0].Keepalive? {
      SkipKeepalive(s.requests, s.answers, s.queue, s.consumed);
    } else {
      TakeTerminal(s.requests, s.answers, s.queue, s.consumed);
    }
  }

  lemma ReadKeepsQueue(s: System, e: Event)
    requires QueueInvariant(s) && Enabled(s, e) && Reads(e)
    ensures QueueInvariant(ApplyRead(s, e))
  {
    if e.ReadMessage? {
      TakeKeepsQueue(s);
    } else {
      PutAnswer(s.requests, s.answers, s.queue, s.consumed, if e.PeerAnswer? then e.answer else Keepalive);
    }
  }

  lemma StepKeepsQueue(s: System, e: Event)
    requires QueueInvariant(s) && Enabled(s, e)
    ensures QueueInvariant(Apply(s, e))
  {
    if Writes(e) {
      WriteLeavesQueue(s, e);
      if e.WriteReport? {
        PutRequest(s.requests, s.answers, s.queue, s.consumed, s.op.request);
      }
    } else if Reads(e) {
      ReadKeepsQueue(s, e);
    } else {
      ControlLeavesQueue(s, e);
    }
  }

  lemma StepKeepsDebt(s: System, e: Event)
    requires DebtInvariant(s) && QueueInvariant(s) && Enabled(s, e)
    ensures DebtInvariant(Apply(s, e))
  {
    if Writes(e) {
      WriteKeepsDebt(s, e);
    } else if Reads(e) {
      ReadKeepsDebt(s, e);
    }
  }

  lemma WriteKeepsDebt(s: System, e: Event)
    requires DebtInvariant(s) && Enabled(s, e) && Writes(e)
    ensures DebtInvariant(ApplyWrite(s, e))
  {
    if e.WriteReport? {
      ReportKeepsDebt(s, e.write);
    }
  }

  lemma ReportKeepsDebt(s: System, w: WriteResult)
    requires DebtInvariant(s) && Enabled(s, WriteReport(w))
    ensures DebtInvariant(WroteReport(s, w))
  {}

  lemma ReadKeepsDebt(s: System, e: Event)
    requires DebtInvariant(s) && Enabled(s, e) && Reads(e)
    ensures DebtInvariant(ApplyRead(s, e))
  {}

  // ---------------------------------------------------------------------- what was returned

  /** The reply answers a request at most as many before the caller's own as reads were abandoned. */
  ghost predicate IsAnswered(requests: seq<Request>, answers: seq<Answer>, abandoned: nat, e: Exchange) {
    && 0 <= e.answer < |answers| && e.answer <= e.attempt < |requests|
    && requests[e.attempt] == e.request && answers[e.answer] == e.reply
    && e.attempt - e.answer <= abandoned
  }

  /** The newest request is the one the command waits on. */
  predicate OwnIsNewest(s: System) {
    Waiting(s.op) ==> s.requests != [] && s.requests[|s.requests| - 1] == s.op.request
  }

  ghost predicate ReturnInvariant(s: System) {
    forall e :: e in s.returned ==> IsAnswered(s.requests, s.answers, s.abandoned, e)
  }

  lemma WriteKeepsOwn(s: System, e: Event)
    requires OwnIsNewest(s) && Enabled(s, e) && Writes(e)
    ensures OwnIsNewest(ApplyWrite(s, e))
  {}

  lemma ReadKeepsOwn(s: System, e: Event)
    requires OwnIsNewest(s) && Enabled(s, e) && Reads(e)
    ensures OwnIsNewest(ApplyRead(s, e))
  {}

  lemma ControlKeepsOwn(s: System, e: Event)
    requires OwnIsNewest(s) && Enabled(s, e) && !Writes(e) && !Reads(e)
    ensures OwnIsNewest(ApplyControl(s, e))
  {}

  lemma StepKeepsOwn(s: System, e: Event)
    requires OwnIsNewest(s) && Enabled(s, e)
    ensures OwnIsNewest(Apply(s, e))
  {
    if Writes(e) {
      WriteKeepsOwn(s, e);
    } else if Reads(e) {
      ReadKeepsOwn(s, e);
    } else {
      ControlKeepsOwn(s, e);
    }
  }

  /** Reading one message while a response is awaited: a keepalive changes nothing; ERR_CHANNEL_BUSY makes
      the command back off and keep the mutex; any other answer is returned and frees it. */
  lemma AnswerIsReturned(s: System)
    requires DebtInvariant(s) && QueueInvariant(s) && OwnIsNewest(s)
    requires Enabled(s, ReadMessage) && s.op.Reading? && s.queue[0] != Keepalive
    ensures s.consumed < |s.answers| && s.queue[0] == s.answers[s.consumed]
    ensures s.requests != [] && s.requests[|s.requests| - 1] == s.op.request && |s.requests| - 1 - s.consumed == s.abandoned
    ensures var t, e := Apply(s, ReadMessage), Exchange(|s.requests| - 1, s.consumed, s.op.request, s.queue[0]);
            && t.consumed == s.consumed + 1 && t.closed == s.closed && t.abandoned == s.abandoned
            && if s.queue[0] == Error(0x06) then t.op == Backoff(s.op.request) && t.returned == s.returned
               else t.op == Free && t.returned == s.returned + [e] && IsAnswered(t.requests, t.answers, t.abandoned, e)
  {
    TakeTerminal(s.requests, s.answers, s.queue, s.consumed);
  }

  lemma KeepaliveIsSkipped(s: System)
    requires Enabled(s, ReadMessage) && s.queue[0] == Keepalive
    ensures Apply(s, ReadMessage) == s.(queue := s.queue[1..])
  {}

  /** The drain of a canceled CBOR command takes the one answer owed to it, whatever it is, returns it to
      nobody and frees the mutex with the device as open as before. */
  lemma DrainTakesAnswer(s: System)
    requires Enabled(s, ReadMessage) && s.op.Draining? && s.queue[0] != Keepalive
    ensures Apply(s, ReadMessage) == s.(op := Free, queue := s.queue[1..], consumed := s.consumed + 1)
  {}

  lemma StepGrows(s: System, e: Event)
    requires Enabled(s, e)
    ensures s.requests <= Apply(s, e).requests && s.answers <= Apply(s, e).answers && s.abandoned <= Apply(s, e).abandoned
    ensures !e.ReadMessage? ==> Apply(s, e).returned == s.returned
  {
    if Writes(e) {
      WriteLeavesQueue(s, e);
    } else if !Reads(e) {
      ControlLeavesQueue(s, e);
    }
  }

  lemma ReturnsCarryOver(s: System, t: System)
    requires ReturnInvariant(s) && t.returned == s.returned
    requires s.requests <= t.requests && s.answers <= t.answers && s.abandoned <= t.abandoned
    ensures ReturnInvariant(t)
  {}

  lemma StepKeepsReturns(s: System, e: Event)
    requires DebtInvariant(s) && QueueInvariant(s) && OwnIsNewest(s) && ReturnInvariant(s) && Enabled(s, e)
    ensures ReturnInvariant(Apply(s, e))
  {
    StepGrows(s, e);
    if !e.ReadMessage? {
      ReturnsCarryOver(s, Apply(s, e));
    } else if s.queue[0] == Keepalive {
      KeepaliveIsSkipped(s);
    } else if s.op.Draining? {
      DrainTakesAnswer(s);
    } else {
      AnswerIsReturned(s);
    }
  }

  // ------------------------------------------------------------------------------ whole runs

  ghost predicate Invariant(s: System) {
    && MutexInvariant(s) && WireInvariant(s) && QueueInvariant(s) && DebtInvariant(s) && OwnIsNewest(s) && ReturnInvariant(s)
  }

  lemma StepKeepsInvariant(s: System, e: Event)
    requires Invariant(s) && Enabled(s, e)
    ensures Invariant(Apply(s, e))
  {
    StepKeepsMutex(s, e);
    StepKeepsWire(s, e);
    StepKeepsQueue(s, e);
    StepKeepsDebt(s, e);
    StepKeepsOwn(s, e);
    StepKeepsReturns(s, e);
  }

  lemma RunStep(states: seq<System>, events: seq<Event>, i: nat)
    requires IsRun(states, events) && i < |events|
    ensures Enabled(states[i], events[i]) && states[i + 1] == Apply(states[i], events[i])
  {
    assert IsStep(states, events, i);
  }

  lemma InitiallyInvariant()
    ensures Invariant(INITIAL)
  {}

  lemma {:induction false} RunKeepsInvariant(states: seq<System>, events: seq<Event>, i: nat)
    requires IsRun(states, events) && i < |states|
    ensures Invariant(states[i])
    decreases i
  {
    if i == 0 {
      InitiallyInvariant();
    } else {
      RunKeepsInvariant(states, events, i - 1);
      RunStep(states, events, i - 1);
      var s, t := states[i - 1], states[i];
      StepKeepsInvariant(s, events[i - 1]);
      assert t == Apply(s, events[i - 1]);
    }
  }

  /** Between commands on an open device the answers still owed are those of the abandoned calls; so
      nothing is owed or queued if and only if no call was abandoned. */
  lemma DrainedUnlessAbandoned(states: seq<System>, events: seq<Event>, i: nat)
    requires IsRun(states, events) && i < |states| && states[i].op.Free? && !states[i].closed
    ensures |states[i].requests| - states[i].consumed == states[i].abandoned
    ensures |states[i].requests| == |states[i].answers| && states[i].queue == [] <==> states[i].abandoned == 0
  {
    RunKeepsInvariant(states, events, i);
    var s := states[i];
    if s.queue != [] && |s.answers| == |s.requests| {
      NoTerminals(s.queue);
    } else if s.queue == [] {
      assert Terminals(s.queue) == [];
    }
  }

  /** Steps that need neither the authenticator nor a new caller. */
  predicate ByHost(e: Event) {
    !e.PeerKeepalive? && !e.PeerAnswer? && !e.Start? && !e.CancelAcquire?
  }

  /** After these events in a row. */
  function After(s: System, events: seq<Event>): Option<System>
    decreases |events|
  {
    if events == [] then Some(s)
    else if Enabled(s, events[0]) then After(Apply(s, events[0]), events[1..])
    else None
  }

  lemma OneStep(s: System, e: Event)
    requires Enabled(s, e)
    ensures After(s, [e]) == Some(Apply(s, e))
  {
    assert [e][1..] == [];
  }

  lemma ThenSteps(s: System, e: Event, more: seq<Event>)
    requires Enabled(s, e)
    ensures After(s, [e] + more) == After(Apply(s, e), more)
  {
    assert ([e] + more)[1..] == more;
  }

  /** A canceled drain whose CANCEL is given up. */
  lemma DrainGivenUp(s: System) returns (events: seq<Event>)
    requires s.op.CancelReady? && !s.writeMu
    ensures |events| == 2 && After(s, events).Some? && After(s, events).value.op == Free
    ensures forall e :: e in events ==> ByHost(e)
  {
    var writing := Apply(s, DrainAcquire);
    OneStep(writing, DrainWrite(GivenUp(false)));
    ThenSteps(s, DrainAcquire, [DrainWrite(GivenUp(false))]);
    events := [DrainAcquire] + [DrainWrite(GivenUp(false))];
  }

  lemma HolderLetsGo(s: System) returns (more: seq<Event>)
    requires MutexInvariant(s) && !s.op.Free? && !s.op.CancelReady?
    ensures |more| <= 2 && After(s, more).Some? && After(s, more).value.op == Free
    ensures forall e :: e in more ==> ByHost(e)
  {
    match s.op
    case Entered(r) =>
      if IsCbor(r) {
        more := [EnterCanceled];
      } else {
        OneStep(Apply(s, BeginWrite), WriteReport(GivenUp(false)));
        ThenSteps(s, BeginWrite, [WriteReport(GivenUp(false))]);
        more := [BeginWrite] + [WriteReport(GivenUp(false))];
      }
    case Writing(_, _, _, _) => more := [WriteReport(GivenUp(false))];
    case Reading(_) => more := [ReadFault];
    case Backoff(_) => more := [RetryCanceled];
    case CancelWriting(_) => more := [DrainWrite(GivenUp(false))];
    case Draining(_) => more := [ReadFault];
    if |more| == 1 {
      OneStep(s, more[0]);
    }
  }

  /** In every state of every run at most three steps of the host alone free the command mutex. */
  lemma MutexIsReleased(states: seq<System>, events: seq<Event>, i: nat) returns (more: seq<Event>)
    requires IsRun(states, events) && i < |states|
    ensures |more| <= 3 && After(states[i], more).Some? && After(states[i], more).value.op == Free
    ensures forall e :: e in more ==> ByHost(e)
  {
    var s := states[i];
    assert MutexInvariant(s) by {
      RunKeepsInvariant(states, events, i);
    }
    if s.op.Free? {
      more := [];
    } else if s.op.CancelReady? && s.writeMu {
      var t := Apply(s, CancelWrite(GivenUp(false)));
      var rest := DrainGivenUp(t);
      ThenSteps(s, CancelWrite(GivenUp(false)), rest);
      more := [CancelWrite(GivenUp(false))] + rest;
    } else if s.op.CancelReady? {
      more := DrainGivenUp(s);
    } else {
      more := HolderLetsGo(s);
    }
  }

  /** Nothing is ruled out: every write may fail or be given up, arrived or not, and succeed while the
      device is open. */
  lemma AnyWriteResult(s: System, seen: bool)
    requires MutexInvariant(s)
    ensures s.op.Writing? ==> Enabled(s, WriteReport(Failed(seen))) && Enabled(s, WriteReport(GivenUp(seen)))
    ensures s.op.CancelWriting? ==> Enabled(s, DrainWrite(Failed(seen))) && Enabled(s, DrainWrite(GivenUp(seen)))
    ensures s.canceler ==> Enabled(s, CancelWrite(Failed(seen))) && Enabled(s, CancelWrite(GivenUp(seen)))
    ensures !s.closed && s.op.Writing? ==> Enabled(s, WriteReport(Ok))
    ensures !s.closed && s.op.CancelWriting? ==> Enabled(s, DrainWrite(Ok))
    ensures !s.closed && s.canceler ==> Enabled(s, CancelWrite(Ok))
  {}

  /** Close may come at any time and Cancel whenever the write mutex is free; reads fail and contexts end
      whenever the code waits for them; and a request that is owed an answer may get keepalives, any error
      and any reply to its command. */
  lemma AnySurroundings(s: System, code: byte, payload: bytes)
    ensures Enabled(s, CloseDevice) && (!s.writeMu ==> Enabled(s, CancelAcquire))
    ensures s.op.Reading? ==> Enabled(s, ReadFault) && Enabled(s, ContextDone)
    ensures s.op.Draining? ==> Enabled(s, ReadFault)
    ensures s.op.Backoff? ==> Enabled(s, RetryTimer) && Enabled(s, RetryCanceled)
    ensures |s.answers| < |s.requests| ==>
              && Enabled(s, PeerKeepalive) && Enabled(s, PeerAnswer(Error(code)))
              && Enabled(s, PeerAnswer(Reply(s.requests[|s.answers|].command, payload)))
  {}

  /** When a command has an answer, ERR_CHANNEL_BUSY makes it back off and keep the mutex, and any other
      answer is what it returns: the answer to the request as many before its own last attempt as calls
      were abandoned, so its own answer if and only if there was none. */
  lemma ReturnsOwnAnswerUnlessAbandoned(states: seq<System>, events: seq<Event>, i: nat)
    requires IsRun(states, events) && i < |events| && events[i].ReadMessage?
    requires states[i].op.Reading? && states[i].queue != [] && states[i].queue[0] != Keepalive
    ensures var s, t := states[i], states[i + 1];
            && s.requests != [] && s.requests[|s.requests| - 1] == s.op.request && s.consumed < |s.answers|
            && |s.requests| - 1 - s.consumed == s.abandoned
            && if s.answers[s.consumed] == Error(0x06) then t.op == Backoff(s.op.request) && t.returned == s.returned
               else t.op == Free
                    && t.returned == s.returned + [Exchange(|s.requests| - 1, s.consumed, s.op.request, s.answers[s.consumed])]
    ensures states[i].consumed == |states[i].requests| - 1 <==> states[i].abandoned == 0
  {
    RunKeepsInvariant(states, events, i);
    RunStep(states, events, i);
    AnswerIsReturned(states[i]);
  }

  predicate AboutToWrite(op: Op) {
    op.Entered? || op.Backoff?
  }

  predicate ReadsBusy(s: System, e: Event) {
    e.ReadMessage? && s.op.Reading? && s.queue != [] && s.queue[0] == Error(0x06)
  }

  lemma OnlyBusyBacksOff(s: System, e: Event)
    requires Enabled(s, e) && !e.Start? && AboutToWrite(Apply(s, e).op)
    ensures ReadsBusy(s, e) || (AboutToWrite(s.op) && !e.BeginWrite?)
  {
    if Writes(e) {
      OnlyBusyBacksOffWriting(s, e);
    } else if Reads(e) {
      OnlyBusyBacksOffReading(s, e);
    }
  }

  lemma OnlyBusyBacksOffWriting(s: System, e: Event)
    requires Enabled(s, e) && Writes(e)
    ensures AboutToWrite(ApplyWrite(s, e).op) ==> AboutToWrite(s.op) && !e.BeginWrite?
  {}

  lemma OnlyBusyBacksOffReading(s: System, e: Event)
    requires Enabled(s, e) && Reads(e)
    ensures AboutToWrite(ApplyRead(s, e).op) ==> ReadsBusy(s, e) || AboutToWrite(s.op)
  {}

  /** Between one Start and the command's return a request is written again only after a read of
      ERR_CHANNEL_BUSY. */
  lemma {:induction false} ResendsOnlyWhenBusy(states: seq<System>, events: seq<Event>, i: nat, j: nat) returns (k: nat)
    requires IsRun(states, events) && i < j < |states| && events[i].BeginWrite?
    requires forall l :: i < l < j ==> !events[l].Start?
    requires AboutToWrite(states[j].op)
    ensures i < k < j && ReadsBusy(states[k], events[k])
    decreases j
  {
    RunStep(states, events, j - 1);
    OnlyBusyBacksOff(states[j - 1], events[j - 1]);
    if ReadsBusy(states[j - 1], events[j - 1]) {
      k := j - 1;
    } else {
      k := ResendsOnlyWhenBusy(states, events, i, j - 1);
    }
  }

  /** After the wait the same request is written again. */
  lemma BusySendsAgain(s: System)
    requires s.op.Backoff? && !s.writeMu
    ensures Enabled(s, RetryTimer) && Enabled(Apply(s, RetryTimer), BeginWrite)
    ensures Apply(Apply(s, RetryTimer), BeginWrite).op == Writing(s.op.request, |s.sessions|, 0, false)
  {}

  /** A CBOR command whose context ends while it reads goes for the write mutex, puts one CANCEL on the
      wire and drains. */
  lemma CanceledIsDrained(s: System)
    requires s.op.Reading? && s.op.request.command == 0x10 && !s.writeMu && !s.closed
    ensures Enabled(s, ContextDone) && Enabled(Apply(s, ContextDone), DrainAcquire)
    ensures var writing := Apply(Apply(s, ContextDone), DrainAcquire);
            && writing.writeMu && Enabled(writing, DrainWrite(Ok))
            && var t := Apply(writing, DrainWrite(Ok));
               && t.op == Draining(s.op.request) && !t.writeMu && !t.closed && t.abandoned == s.abandoned
               && t.sessions == s.sessions + [Cancel] && t.log == s.log + [Sent(|s.sessions|, 0)]
  {}

  /** A device error closes the device and ends the command; a write given up does neither more nor less
      than end it. */
  lemma DeviceErrorsClose(s: System, e: Event)
    requires Enabled(s, e) && (e.WriteReport? || e.DrainWrite? || e.CancelWrite? || e.ReadFault?)
    ensures e.ReadFault? || e.write.Failed? ==> Apply(s, e).closed
    ensures !e.ReadFault? && !e.write.Failed? ==> Apply(s, e).closed == s.closed
    ensures e.ReadFault? || (!e.CancelWrite? && !e.write.Ok?) ==> Apply(s, e).op == Free
  {}

  /** The steps that may abandon a call, as far as the caller can tell: the context of a command other
      than CBOR ends while it reads, the write of a last report is given up, or the drain's CANCEL is. */
  predicate GivesUp(s: System, e: Event) {
    || (e.ContextDone? && s.op.Reading? && !IsCbor(s.op.request))
    || (e.WriteReport? && s.op.Writing? && IsLast(s.op) && e.write.GivenUp?)
    || (e.DrainWrite? && e.write.GivenUp?)
  }

  /** Exactly these steps abandon a call. */
  lemma AbandonsExactly(s: System, e: Event)
    requires Enabled(s, e)
    ensures Apply(s, e).abandoned == s.abandoned +
            if || (e.ContextDone? && s.op.request.command != 0x10)
               || (e.WriteReport? && e.write == GivenUp(true) && s.op.done + 1 == ReportCount(s.op.request))
               || (e.DrainWrite? && e.write.GivenUp?)
            then 1 else 0
  {
    if Writes(e) {
      WriteAbandons(s, e);
    } else if Reads(e) {
      ReadAbandonsNothing(s, e);
    }
  }

  lemma WriteAbandons(s: System, e: Event)
    requires Enabled(s, e) && Writes(e)
    ensures ApplyWrite(s, e).abandoned == s.abandoned +
            if || (e.WriteReport? && e.write == GivenUp(true) && s.op.done + 1 == ReportCount(s.op.request))
               || (e.DrainWrite? && e.write.GivenUp?)
            then 1 else 0
  {}

  lemma ReadAbandonsNothing(s: System, e: Event)
    requires Enabled(s, e) && Reads(e)
    ensures ApplyRead(s, e).abandoned == s.abandoned
  {}

  /** What a caller can check: as long as no call was given up that way, nothing is abandoned, so every
      command gets its own answer and leaves the channel drained. */
  lemma {:induction false} NothingGivenUpNothingAbandoned(states: seq<System>, events: seq<Event>, i: nat)
    requires IsRun(states, events) && i < |states|
    requires forall k :: 0 <= k < i ==> !GivesUp(states[k], events[k])
    ensures states[i].abandoned == 0
    decreases i
  {
    if i > 0 {
      NothingGivenUpNothingAbandoned(states, events, i - 1);
      RunStep(states, events, i - 1);
      AbandonsExactly(states[i - 1], events[i - 1]);
    }
  }

  /** In every run a message on the wire is torn exactly if a request went on after a CANCEL had been
      put on the wire behind one of its reports. */
  lemma TornExactly(states: seq<System>, events: seq<Event>, i: nat)
    requires IsRun(states, events) && i < |states|
    ensures Unbroken(states[i].log) <==> !states[i].torn
  {
    RunKeepsInvariant(states, events, i);
  }

  /** In every run, torn messages or not, each report of a CBOR request on the wire directly follows the
      one before it, and a report that does not follow its predecessor belongs to another command of
      more than 57 bytes and comes behind a CANCEL. */
  lemma CborWritesAreWhole(states: seq<System>, events: seq<Event>, i: nat, k: nat)
    requires IsRun(states, events) && i < |states| && k < |states[i].log|
    ensures states[i].log[k].session < |states[i].sessions|
    ensures var s := states[i];
            var m := s.sessions[s.log[k].session];
            && (m.Command? && IsCbor(m.request) ==> Follows(s.log, k))
            && (!Follows(s.log, k) ==>
                  && m.Command? && !IsCbor(m.request) && |m.request.data| > INIT_DATA
                  && k > 0 && IsCancel(s.sessions, s.log[k - 1].session))
  {
    RunKeepsInvariant(states, events, i);
    var s := states[i];
    if !Follows(s.log, k) {
      var r := s.sessions[s.log[k].session].request;
      if |r.data| <= INIT_DATA {
        OneReport(r);
      }
    }
  }

  // ------------------------------------------------------------------------- three short runs

  lemma ExtendRun(states: seq<System>, events: seq<Event>, s: System, e: Event) returns (longer: seq<System>)
    requires IsRun(states, events) && states[|events|] == s && Enabled(s, e)
    ensures longer == states + [Apply(s, e)] && IsRun(longer, events + [e])
  {
    longer := states + [Apply(s, e)];
    forall i | 0 <= i < |events| + 1 ensures IsStep(longer, events + [e], i) {
      assert i < |events| ==> IsStep(states, events, i);
    }
  }

  lemma OneReport(r: Request)
    ensures ReportCount(r) == 1 <==> |r.data| <= INIT_DATA
  {}

  /** A single-report command brought up to its only write. */
  lemma Prepare(states: seq<System>, events: seq<Event>, s: System, r: Request) returns (longer: seq<System>, more: seq<Event>)
    requires IsRun(states, events) && states[|events|] == s && s.op.Free? && !s.writeMu
    ensures IsRun(longer, more)
    ensures longer[|more|] == s.(op := Writing(r, |s.sessions|, 0, false), sessions := s.sessions + [Command(r)], writeMu := IsCbor(r))
  {
    var entered := s.(op := Entered(r));
    longer := ExtendRun(states, events, s, Start(r));
    more := events + [Start(r)];
    longer := ExtendRun(longer, more, entered, BeginWrite);
    more := more + [BeginWrite];
  }

  /** A command of one report sent up to where its response is awaited. */
  lemma SendOne(states: seq<System>, events: seq<Event>, s: System, r: Request) returns (longer: seq<System>, more: seq<Event>)
    requires IsRun(states, events) && states[|events|] == s && s.op.Free? && !s.writeMu && !s.closed
    requires |r.data| <= INIT_DATA
    ensures IsRun(longer, more)
    ensures longer[|more|] == s.(op := Reading(r), sessions := s.sessions + [Command(r)],
                                 log := s.log + [Sent(|s.sessions|, 0)], requests := s.requests + [r])
  {
    OneReport(r);
    longer, more := Prepare(states, events, s, r);
    longer := ExtendRun(longer, more, longer[|more|], WriteReport(Ok));
    more := more + [WriteReport(Ok)];
  }

  /** The answer to the first request arrives while the second command waits, which returns it. */
  lemma TakeLate(states: seq<System>, events: seq<Event>, s: System, second: Request, reply: Answer)
    returns (longer: seq<System>, more: seq<Event>)
    requires IsRun(states, events) && states[|events|] == s && s.op == Reading(second)
    requires |s.requests| == 2 && s.answers == [] && s.queue == [] && s.consumed == 0 && s.returned == []
    requires AnswersTo(reply, s.requests[0]) && reply.Reply? && reply.command == second.command
    ensures IsRun(longer, more) && longer[|more|].returned == [Exchange(1, 0, second, reply)]
  {
    longer := ExtendRun(states, events, s, PeerAnswer(reply));
    more := events + [PeerAnswer(reply)];
    var answered := s.(queue := [reply], answers := [reply]);
    longer := ExtendRun(longer, more, answered, ReadMessage);
    more := more + [ReadMessage];
  }

  /** Two pings, the first given up before its response came: the second returns the first one's echo. */
  lemma AbandonedPingAnswersTheNext(first: Request, second: Request) returns (states: seq<System>, events: seq<Event>)
    requires first.command == second.command && !IsCbor(first) && |first.data| <= INIT_DATA && |second.data| <= INIT_DATA
    ensures IsRun(states, events)
    ensures states[|events|].returned == [Exchange(1, 0, second, Reply(first.command, first.data))]
  {
    states, events := SendOne([INITIAL], [], INITIAL, first);
    states := ExtendRun(states, events, states[|events|], ContextDone);
    events := events + [ContextDone];
    states, events := SendOne(states, events, states[|events|], second);
    states, events := TakeLate(states, events, states[|events|], second, Reply(first.command, first.data));
  }

  /** Two CBOR commands, the first one's only report given up although it arrived: the second command
      returns the answer to the first, whatever that is. */
  lemma GivenUpCborAnswersTheNext(first: Request, second: Request, payload: bytes) returns (states: seq<System>, events: seq<Event>)
    requires IsCbor(first) && IsCbor(second) && |first.data| <= INIT_DATA && |second.data| <= INIT_DATA
    ensures IsRun(states, events)
    ensures states[|events|].returned == [Exchange(1, 0, second, Reply(CBOR, payload))]
  {
    OneReport(first);
    states, events := Prepare([INITIAL], [], INITIAL, first);
    states := ExtendRun(states, events, states[|events|], WriteReport(GivenUp(true)));
    events := events + [WriteReport(GivenUp(true))];
    states, events := SendOne(states, events, states[|events|], second);
    states, events := TakeLate(states, events, states[|events|], second, Reply(CBOR, payload));
  }

  /** The first k reports of a message. */
  function Reports(k: nat): seq<Sent> {
    seq(k, i requires 0 <= i < k => Sent(0, i))
  }

  /** A command other than CBOR with k of its reports on the wire and another one due. */
  lemma {:induction false} SendSome(r: Request, k: nat) returns (states: seq<System>, events: seq<Event>)
    requires !IsCbor(r) && k < ReportCount(r)
    ensures IsRun(states, events)
    ensures states[|events|] == INITIAL.(op := Writing(r, 0, k, false), sessions := [Command(r)], log := Reports(k))
    decreases k
  {
    if k == 0 {
      states, events := Prepare([INITIAL], [], INITIAL, r);
    } else {
      states, events := SendSome(r, k - 1);
      var s := states[|events|];
      states := ExtendRun(states, events, s, WriteReport(Ok));
      events := events + [WriteReport(Ok)];
      assert Reports(k) == Reports(k - 1) + [Sent(0, k - 1)];
    }
  }

  /** Any request that is not CBOR can be torn behind any of its reports but the last, by one Cancel. */
  lemma CancelTears(r: Request, k: nat) returns (states: seq<System>, events: seq<Event>)
    requires !IsCbor(r) && 0 < k < ReportCount(r)
    ensures IsRun(states, events) && !states[|events|].closed
    ensures states[|events|].log == Reports(k) + [Sent(1, 0)] + [Sent(0, k)]
    ensures states[|events|].sessions == [Command(r), Cancel]
    ensures !Follows(states[|events|].log, k + 1)
  {
    states, events := SendSome(r, k);
    var s := states[|events|];
    states := ExtendRun(states, events, s, CancelAcquire);
    s, events := s.(canceler := true, writeMu := true), events + [CancelAcquire];
    states := ExtendRun(states, events, s, CancelWrite(Ok));
    s := s.(op := Writing(r, 0, k, true), log := Reports(k) + [Sent(1, 0)], sessions := [Command(r), Cancel],
            canceler := false, writeMu := false);
    events := events + [CancelWrite(Ok)];
    states := ExtendRun(states, events, s, WriteReport(Ok));
    events := events + [WriteReport(Ok)];
  }

  /** In this state a message of the request is torn. */
  ghost predicate Tears(s: System, r: Request) {
    exists k :: 0 <= k < |s.log| && !Follows(s.log, k) && s.log[k].session < |s.sessions| && s.sessions[s.log[k].session] == Command(r)
  }

  /** The requests that some run tears are exactly those that are not CBOR and have more than 57 bytes. */
  lemma TearableExactly(r: Request)
    ensures (exists states: seq<System>, events: seq<Event> :: IsRun(states, events) && Tears(states[|events|], r))
       <==> !IsCbor(r) && |r.data| > INIT_DATA
  {
    OneReport(r);
    if !IsCbor(r) && |r.data| > INIT_DATA {
      var states, events := CancelTears(r, 1);
      var s := states[|events|];
      assert s.log[2] == Sent(0, 1);
      assert Tears(s, r);
    }
    forall states: seq<System>, events: seq<Event> | IsRun(states, events) && Tears(states[|events|], r)
      ensures !IsCbor(r) && |r.data| > INIT_DATA
    {
      var s := states[|events|];
      var k :| 0 <= k < |s.log| && !Follows(s.log, k) && s.log[k].session < |s.sessions| && s.sessions[s.log[k].session] == Command(r);
      CborWritesAreWhole(states, events, |events|, k);
    }
  }
}
