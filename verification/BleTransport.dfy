/** The CTAP BLE request/response protocol (transport/ctapble/transport.go): one command at a time
    under the command lock, a reader goroutine per attempt, the control-point write gate, BUSY retry,
    cancel-and-drain and a concurrent Close, against any scheduler and any well-behaved peer. */
module BleTransport {
  import opened Bytes
  import opened BleFraming

  const PING: byte := 0x81
  const KEEPALIVE: byte := 0x82
  const MSG: byte := 0x83
  const CANCEL: byte := 0xbe
  const ERROR: byte := 0xbf
  const ERR_BUSY: byte := 0x06

  // ------------------------------------------------------------- readResponse

  datatype ReadOutcome =
    | Answered(frame: Frame)
    | ErrorResponse(code: byte)
    | InvalidFrame
    | UnexpectedStatus
    | ReadFailed

  /** The reader of one attempt: still reading, or its buffered result. */
  datatype Reader = NoReader | Live(command: byte, assembly: Assembly) | Finished(outcome: ReadOutcome)

  function OnFrame(command: byte, a: Assembly, frame: Frame): Reader {
    if frame.status == KEEPALIVE then
      (if |frame.data| != 1 then Finished(InvalidFrame) else Live(command, a))
    else if frame.status == ERROR then
      Finished(if |frame.data| != 1 then InvalidFrame else ErrorResponse(frame.data[0]))
    else if frame.status == command then Finished(Answered(frame))
    else Finished(UnexpectedStatus)
  }

  /** One iteration of readResponse's loop. */
  function Receive(r: Reader, fragment: bytes): Reader {
    if !r.Live? then r
    else
      var (a, out) := Add(r.assembly, fragment);
      match out
      case Failure(_) => Finished(InvalidFrame)
      case Success(None) => Live(r.command, a)
      case Success(Some(frame)) => OnFrame(r.command, a, frame)
  }

  function ReceiveAll(r: Reader, fragments: seq<bytes>): Reader
    decreases |fragments|
  {
    if fragments == [] then r else ReceiveAll(Receive(r, fragments[0]), fragments[1..])
  }

  /** The status notifications still to be delivered; None is the closed subscription, or a Close that
      was noticed first, which may happen at any read when `closing` is set. */
  class Notifications {
    var values: seq<bytes>
    const closing: bool

    constructor (values: seq<bytes>, closing: bool)
      ensures this.values == values && this.closing == closing
    {
      this.values, this.closing := values, closing;
    }

    method Next() returns (r: Option<bytes>)
      modifies this`values
      ensures r.None? ==> values == old(values) && (values == [] || closing)
      ensures r.Some? ==> old(values) != [] && r.value == old(values)[0] && values == old(values)[1..]
    {
      if closing {
        var noticed: bool := *;
        if noticed {
          return None;
        }
      }
      if |values| == 0 {
        return None;
      }
      r := Some(values[0]);
      values := values[1..];
    }
  }

  method ReadResponse(notifications: Notifications, command: byte) returns (r: ReadOutcome)
    modifies notifications
    ensures var end := ReceiveAll(Live(command, IDLE), old(notifications.values));
            r == (if end.Finished? then end.outcome else ReadFailed) || (notifications.closing && r == ReadFailed)
    ensures exists n :: 0 <= n <= |old(notifications.values)| && notifications.values == old(notifications.values)[n..]
  {
    var assembler := new ResponseFrameAssembler();
    ghost var taken := 0;
    while true
      invariant fresh(assembler) && taken <= |old(notifications.values)|
      invariant notifications.values == old(notifications.values)[taken..]
      invariant ReceiveAll(Live(command, assembler.State()), notifications.values)
             == ReceiveAll(Live(command, IDLE), old(notifications.values))
      decreases |notifications.values|
    {
      ghost var before := Live(command, assembler.State());
      ghost var values := notifications.values;
      var fragment := notifications.Next();
      if fragment.None? {
        return ReadFailed;
      }
      taken := taken + 1;
      var response := assembler.AddFragment(fragment.value);
      ResultIsFinal(Receive(before, fragment.value), notifications.values);
      if response.Failure? {
        return InvalidFrame;
      }
      if response.value.None? {
        continue;
      }
      var frame := response.value.value;
      if frame.status == KEEPALIVE {
        if |frame.data| != 1 {
          return InvalidFrame;
        }
        continue;
      }
      if frame.status == ERROR {
        return if |frame.data| != 1 then InvalidFrame else ErrorResponse(frame.data[0]);
      }
      return if frame.status == command then Answered(frame) else UnexpectedStatus;
    }
  }

  lemma {:induction false} ResultIsFinal(r: Reader, fragments: seq<bytes>)
    ensures !r.Live? ==> ReceiveAll(r, fragments) == r
    decreases |fragments|
  {
    if fragments != [] && !r.Live? {
      ResultIsFinal(r, fragments[1..]);
    }
  }

  // ------------------------------------------------------------------ the system

  datatype AnyCall = Call(command: byte, data: bytes)

  /** A call that got past fragmentFrame's size check. */
  type Call = c: AnyCall | c.command in {MSG, PING} && |c.data| <= MAXIMUM_FRAME_DATA witness Call(MSG, [])

  /** The peripheral's fidoControlPointLength, at least 20 by the check in Open. */
  type ControlPointLength = n: nat | 20 <= n <= 512 witness 20

  /** CBOR or Ping holding the command lock; NoOp when the lock is free. */
  datatype Op =
    | NoOp
    | Ready(call: Call)
    | Writing(call: Call, done: nat)
    | Exchanging(call: Call)
    | Backoff(call: Call)
    | DrainReady(call: Call)
    | DrainWriting(call: Call)
    | Draining(call: Call)
    | Closing

  /** Close's single execution under closeOnce. */
  datatype Closer = Quiet | CloserReady | CloserWriting | Marking | Finishing | Done

  /** One hold of the write gate: the frame's fragments, how many were handed to the peripheral,
      and whether a write failed. */
  datatype Session = Session(fragments: seq<bytes>, done: nat, failed: bool)

  /** A successful exchange: the attempt's number, the call, and the frame it returned. */
  datatype Exchange = Exchange(attempt: int, call: Call, outcome: ReadOutcome)

  datatype System = System(
    controlPointLength: ControlPointLength,
    op: Op,
    reader: Reader,
    orphans: nat,
    spoiled: bool,
    gate: bool,
    activeMSG: bool,
    closer: Closer,
    log: seq<bytes>,
    sessions: seq<Session>,
    sent: nat,
    peer: Assembly,
    requests: seq<Frame>,
    answers: seq<Frame>,
    sending: seq<bytes>,
    queue: seq<bytes>,
    returned: seq<Exchange>)

  function RequestFrame(call: Call): Frame {
    Frame(call.command, call.data)
  }

  function RequestFragments(s: System, call: Call): seq<bytes> {
    Fragments(RequestFrame(call), s.controlPointLength)
  }

  const CANCEL_FRAGMENT: bytes := [CANCEL, 0, 0]

  // ---- the peer

  predicate Terminal(frame: Frame, request: Frame) {
    |frame.data| <= MAXIMUM_FRAME_DATA
    && (frame.status == request.status || (frame.status == ERROR && |frame.data| == 1))
  }

  /** The peer assembles what is written; a complete MSG or PING is a request to answer, and
      anything else, CANCEL included, leaves what it owes unchanged. */
  function Deliver(s: System, fragment: bytes): System {
    var (a, out) := Add(s.peer, fragment);
    if out.Success? && out.value.Some? && out.value.value.status in {MSG, PING} then
      s.(peer := a, requests := s.requests + [out.value.value])
    else s.(peer := a)
  }

  // ---- writes to the control point

  function OpenSession(s: System, fragments: seq<bytes>): System {
    s.(gate := true, sessions := s.sessions + [Session(fragments, 0, false)])
  }

  function Wrote(s: System, fragment: bytes, failed: bool): System {
    s.(log := s.log + [fragment],
       sessions := if s.sessions == [] then [] else
                     Front(s.sessions) + [Last(s.sessions).(done := Last(s.sessions).done + 1, failed := failed)])
  }

  /** A write that may fail, and that may or may not have reached the peer when it does. */
  datatype WriteResult = Ok | FailedSeen | FailedUnseen

  function Write(s: System, fragment: bytes, w: WriteResult): System {
    var t := Wrote(s, fragment, !w.Ok?);
    if w.FailedUnseen? then t else Deliver(t, fragment)
  }

  // ---- events

  datatype Event =
    | Start(call: Call)
    | AcquireGate
    | GateCanceled
    | WriteFragment(write: WriteResult)
    | RequestWritten
    | TakeResult
    | ContextDone
    | DrainAcquire
    | DrainGateTimeout
    | DrainWrite(write: WriteResult)
    | DrainResult
    | DrainTimeout
    | RetryTimer
    | RetryCanceled
    | CloseReturns
    | ReadFragment
    | ReadFault
    | OrphanTakes
    | CloserBegin
    | CloserAcquire
    | CloserGateTimeout
    | CloserWrite(write: WriteResult)
    | CloserMark
    | CloserFinish
    | PeerKeepalive(fragments: seq<bytes>, status: byte)
    | PeerAnswer(frame: Frame, fragments: seq<bytes>)
    | PeerSend

  ghost predicate Enabled(s: System, e: Event) {
    match e
    case Start(call) => s.op.NoOp?
    case AcquireGate => s.op.Ready? && !s.gate
    case GateCanceled => s.op.Ready?
    case WriteFragment(w) =>
      s.op.Writing? && s.op.done < |RequestFragments(s, s.op.call)| && (s.closer.Done? ==> !w.Ok?)
    case RequestWritten =>
      s.op.Writing? && s.op.done == |RequestFragments(s, s.op.call)|
    case TakeResult => s.op.Exchanging? && s.reader.Finished?
    case ContextDone => s.op.Exchanging?
    case DrainAcquire => s.op.DrainReady? && !s.gate
    case DrainGateTimeout => s.op.DrainReady?
    case DrainWrite(w) => s.op.DrainWriting? && (s.closer.Done? ==> !w.Ok?)
    case DrainResult => s.op.Draining? && s.reader.Finished?
    case DrainTimeout => s.op.Draining?
    case RetryTimer => s.op.Backoff?
    case RetryCanceled => s.op.Backoff?
    case CloseReturns => s.op.Closing? && s.closer.Done?
    case ReadFragment => s.reader.Live? && s.queue != []
    case ReadFault => s.reader.Live?
    case OrphanTakes => s.orphans > 0 && s.queue != []
    case CloserBegin => s.closer.Quiet?
    case CloserAcquire => s.closer.CloserReady? && !s.gate
    case CloserGateTimeout => s.closer.CloserReady?
    case CloserWrite(w) => s.closer.CloserWriting?
    case CloserMark => s.closer.Marking?
    case CloserFinish => s.closer.Finishing?
    case PeerKeepalive(fragments, status) =>
      && |s.answers| < |s.requests| && s.sending == []
      && IsFraming(fragments, Frame(KEEPALIVE, [status]))
    case PeerAnswer(frame, fragments) =>
      && |s.answers| < |s.requests| && s.sending == []
      && Terminal(frame, s.requests[|s.answers|]) && IsFraming(fragments, frame)
    case PeerSend => s.sending != []
  }

  /** exchange, cancelAndDrain, retryBusy and closeOnIOError, seen from the command's goroutine. */
  function Return(s: System): System {
    s.(op := NoOp, reader := NoReader, activeMSG := false)
  }

  /** The command hands the outcome of its last attempt to its caller. */
  function Returning(s: System, call: Call): System
    requires s.reader.Finished?
  {
    Return(s).(returned := s.returned + [Exchange(s.sent - 1, call, s.reader.outcome)])
  }

  function AfterResult(s: System, call: Call): System
    requires s.reader.Finished?
  {
    match s.reader.outcome
    case Answered(_) => Returning(s, call)
    case ErrorResponse(code) =>
      if code == ERR_BUSY then s.(op := Backoff(call), reader := NoReader) else Returning(s, call)
    case ReadFailed => s.(op := Closing)
    case _ => Return(s)
  }

  function ApplyCommand(s: System, e: Event): System
    requires Enabled(s, e)
  {
    match e
    case Start(call) => s.(op := Ready(call), activeMSG := call.command == MSG)
    case AcquireGate => OpenSession(s, RequestFragments(s, s.op.call)).(op := Writing(s.op.call, 0))
    case GateCanceled => s.(op := Closing)
    case WriteFragment(w) =>
      var t := Write(s, RequestFragments(s, s.op.call)[s.op.done], w);
      if w.Ok? then t.(op := Writing(s.op.call, s.op.done + 1)) else t.(op := Closing, gate := false)
    case RequestWritten =>
      s.(op := Exchanging(s.op.call), gate := false, sent := s.sent + 1, reader := Live(s.op.call.command, IDLE))
    case TakeResult => AfterResult(s, s.op.call)
    case ContextDone => s.(op := if s.op.call.command == MSG then DrainReady(s.op.call) else Closing)
    case DrainAcquire => OpenSession(s, [CANCEL_FRAGMENT]).(op := DrainWriting(s.op.call))
    case DrainGateTimeout => s.(op := Closing)
    case DrainWrite(w) =>
      Write(s, CANCEL_FRAGMENT, w).(op := if w.Ok? then Draining(s.op.call) else Closing, gate := false)
    case DrainResult => if s.reader.outcome.ReadFailed? then s.(op := Closing) else Return(s)
    case DrainTimeout => s.(op := Closing)
    case RetryTimer => s.(op := Ready(s.op.call))
    case RetryCanceled => Return(s)
    case CloseReturns => Return(s).(spoiled := true, orphans := s.orphans + if s.reader.Live? then 1 else 0)
    case _ => s
  }

  function ApplyReader(s: System, e: Event): System
    requires Enabled(s, e)
  {
    match e
    case ReadFragment => s.(reader := Receive(s.reader, s.queue[0]), queue := s.queue[1..])
    case ReadFault => s.(reader := Finished(ReadFailed))
    case OrphanTakes => s.(queue := s.queue[1..])
    case _ => s
  }

  function ApplyCloser(s: System, e: Event): System
    requires Enabled(s, e)
  {
    match e
    case CloserBegin => s.(closer := if s.activeMSG then CloserReady else Marking)
    case CloserAcquire => OpenSession(s, [CANCEL_FRAGMENT]).(closer := CloserWriting)
    case CloserGateTimeout => s.(closer := Marking)
    case CloserWrite(w) => Write(s, CANCEL_FRAGMENT, w).(closer := Marking, gate := false)
    case CloserMark => s.(closer := Finishing)
    case CloserFinish => s.(closer := Done)
    case _ => s
  }

  function ApplyPeer(s: System, e: Event): System
    requires Enabled(s, e)
  {
    match e
    case PeerKeepalive(fragments, _) => s.(sending := fragments)
    case PeerAnswer(frame, fragments) => s.(sending := fragments, answers := s.answers + [frame])
    case PeerSend => s.(queue := s.queue + [s.sending[0]], sending := s.sending[1..])
    case _ => s
  }

  predicate ByCommand(e: Event) {
    e.Start? || e.AcquireGate? || e.GateCanceled? || e.WriteFragment? || e.RequestWritten? || e.TakeResult?
    || e.ContextDone? || e.DrainAcquire? || e.DrainGateTimeout? || e.DrainWrite? || e.DrainResult?
    || e.DrainTimeout? || e.RetryTimer? || e.RetryCanceled? || e.CloseReturns?
  }

  predicate ByReader(e: Event) {
    e.ReadFragment? || e.ReadFault? || e.OrphanTakes?
  }

  predicate ByPeer(e: Event) {
    e.PeerKeepalive? || e.PeerAnswer? || e.PeerSend?
  }

  ghost predicate Initial(s: System) {
    s == System(s.controlPointLength, NoOp, NoReader, 0, false, false, false, Quiet,
                   [], [], 0, IDLE, [], [], [], [], [])
  }

  // ------------------------------------------------- invariant: the write gate and the log

  predicate CommandWrites(op: Op) {
    op.Writing? || op.DrainWriting?
  }

  function Written(sessions: seq<Session>): seq<bytes>
    requires forall i :: 0 <= i < |sessions| ==> sessions[i].done <= |sessions[i].fragments|
  {
    if sessions == [] then []
    else Written(Front(sessions)) + Last(sessions).fragments[..Last(sessions).done]
  }

  ghost predicate SessionsInBounds(sessions: seq<Session>) {
    forall i :: 0 <= i < |sessions| ==> sessions[i].done <= |sessions[i].fragments|
  }

  /** Every session is complete or failed, except that the newest may be open while the gate is taken. */
  ghost predicate Settled(sessions: seq<Session>, gate: bool) {
    forall i :: 0 <= i < |sessions| ==>
      sessions[i].done == |sessions[i].fragments| || sessions[i].failed || (i == |sessions| - 1 && gate)
  }

  /** The log is, in order, what each session wrote: a prefix of its own fragments. */
  ghost predicate LogInvariant(log: seq<bytes>, sessions: seq<Session>, gate: bool) {
    SessionsInBounds(sessions) && Settled(sessions, gate) && log == Written(sessions)
  }

  ghost predicate OpenSessionIs(sessions: seq<Session>, fragments: seq<bytes>, done: nat) {
    sessions != [] && Last(sessions) == Session(fragments, done, false)
  }

  ghost predicate OwnersInvariant(s: System) {
    && (s.gate <==> CommandWrites(s.op) || s.closer.CloserWriting?)
    && !(CommandWrites(s.op) && s.closer.CloserWriting?)
    && (s.op.Writing? ==> s.op.done <= |RequestFragments(s, s.op.call)|)
    && (s.op.Writing? ==> OpenSessionIs(s.sessions, RequestFragments(s, s.op.call), s.op.done))
    && (s.op.DrainWriting? || s.closer.CloserWriting? ==> OpenSessionIs(s.sessions, [CANCEL_FRAGMENT], 0))
  }

  ghost predicate GateInvariant(s: System) {
    OwnersInvariant(s) && LogInvariant(s.log, s.sessions, s.gate)
  }

  function Apply(s: System, e: Event): System
    requires Enabled(s, e)
  {
    if ByCommand(e) then ApplyCommand(s, e)
    else if ByReader(e) then ApplyReader(s, e)
    else if ByPeer(e) then ApplyPeer(s, e)
    else ApplyCloser(s, e)
  }

  lemma WrittenSnoc(sessions: seq<Session>, session: Session)
    requires SessionsInBounds(sessions) && session.done <= |session.fragments|
    ensures SessionsInBounds(sessions + [session])
    ensures Written(sessions + [session]) == Written(sessions) + session.fragments[..session.done]
  {
    assert Front(sessions + [session]) == sessions;
  }

  lemma OpeningKeepsLog(log: seq<bytes>, sessions: seq<Session>, fragments: seq<bytes>)
    requires LogInvariant(log, sessions, false)
    ensures LogInvariant(log, sessions + [Session(fragments, 0, false)], true)
  {
    var added := Session(fragments, 0, false);
    WrittenSnoc(sessions, added);
    assert Written(sessions) + fragments[..0] == Written(sessions);
    forall i | 0 <= i < |sessions| ensures (sessions + [added])[i] == sessions[i] {}
  }

  lemma WritingKeepsLog(log: seq<bytes>, sessions: seq<Session>, fragments: seq<bytes>, done: nat, failed: bool)
    requires LogInvariant(log, sessions, true) && OpenSessionIs(sessions, fragments, done) && done < |fragments|
    ensures var now := Front(sessions) + [Session(fragments, done + 1, failed)];
            && LogInvariant(log + [fragments[done]], now, true)
            && (failed || done + 1 == |fragments| ==> Settled(now, false))
  {
    var now := Front(sessions) + [Session(fragments, done + 1, failed)];
    WrittenSnoc(Front(sessions), Session(fragments, done + 1, failed));
    assert sessions == Front(sessions) + [Session(fragments, done, false)];
    WrittenSnoc(Front(sessions), Session(fragments, done, false));
    assert fragments[..done + 1] == fragments[..done] + [fragments[done]];
    Associate(Written(Front(sessions)), fragments[..done], [fragments[done]]);
    forall i | 0 <= i < |now| - 1 ensures now[i] == sessions[i] {}
  }

  /** A write by whoever holds the gate. */
  lemma WriteKeepsLog(s: System, fragments: seq<bytes>, done: nat, w: WriteResult)
    requires LogInvariant(s.log, s.sessions, true) && OpenSessionIs(s.sessions, fragments, done) && done < |fragments|
    ensures var t := Write(s, fragments[done], w);
            && t.sessions == Front(s.sessions) + [Session(fragments, done + 1, !w.Ok?)]
            && LogInvariant(t.log, t.sessions, true)
            && (!w.Ok? || done + 1 == |fragments| ==> LogInvariant(t.log, t.sessions, false))
  {
    WritingKeepsLog(s.log, s.sessions, fragments, done, !w.Ok?);
    WriteLogs(s, fragments[done], w);
  }

  lemma WriteLogs(s: System, fragment: bytes, w: WriteResult)
    requires s.sessions != []
    ensures var t, last := Write(s, fragment, w), Last(s.sessions);
            && t.log == s.log + [fragment]
            && t.sessions == Front(s.sessions) + [last.(done := last.done + 1, failed := !w.Ok?)]
  {}

  lemma WriteFragmentKeepsGate(s: System, w: WriteResult)
    requires GateInvariant(s) && Enabled(s, WriteFragment(w))
    ensures GateInvariant(ApplyCommand(s, WriteFragment(w)))
  {
    WriteKeepsLog(s, RequestFragments(s, s.op.call), s.op.done, w);
  }

  lemma DrainWriteKeepsGate(s: System, w: WriteResult)
    requires GateInvariant(s) && Enabled(s, DrainWrite(w))
    ensures GateInvariant(ApplyCommand(s, DrainWrite(w)))
  {
    WriteKeepsLog(s, [CANCEL_FRAGMENT], 0, w);
  }

  lemma AcquireKeepsGate(s: System, e: Event)
    requires GateInvariant(s) && Enabled(s, e) && (e.AcquireGate? || e.DrainAcquire?)
    ensures GateInvariant(ApplyCommand(s, e))
  {
    OpeningKeepsLog(s.log, s.sessions, if e.AcquireGate? then RequestFragments(s, s.op.call) else [CANCEL_FRAGMENT]);
  }

  lemma RequestWrittenKeepsGate(s: System)
    requires GateInvariant(s) && Enabled(s, RequestWritten)
    ensures GateInvariant(ApplyCommand(s, RequestWritten))
  {}

  /** A step that neither writes nor touches the gate, and is not part of a write. */
  predicate GateNeutral(s: System, t: System) {
    && t.sessions == s.sessions && t.log == s.log && t.gate == s.gate && t.closer == s.closer
    && !CommandWrites(s.op) && !CommandWrites(t.op)
  }

  lemma ResultIsGateNeutral(s: System, e: Event)
    requires Enabled(s, e) && (e.TakeResult? || e.DrainResult?)
    ensures GateNeutral(s, ApplyCommand(s, e))
  {}

  lemma EntryIsGateNeutral(s: System, e: Event)
    requires Enabled(s, e) && (e.Start? || e.GateCanceled? || e.RetryTimer? || e.RetryCanceled? || e.CloseReturns?)
    ensures GateNeutral(s, ApplyCommand(s, e))
  {}

  lemma CancelIsGateNeutral(s: System, e: Event)
    requires Enabled(s, e) && (e.ContextDone? || e.DrainGateTimeout? || e.DrainTimeout?)
    ensures GateNeutral(s, ApplyCommand(s, e))
  {}

  lemma CommandKeepsGate(s: System, e: Event)
    requires GateInvariant(s) && Enabled(s, e) && ByCommand(e)
    ensures GateInvariant(ApplyCommand(s, e))
  {
    if e.WriteFragment? {
      WriteFragmentKeepsGate(s, e.write);
    } else if e.DrainWrite? {
      DrainWriteKeepsGate(s, e.write);
    } else if e.AcquireGate? || e.DrainAcquire? {
      AcquireKeepsGate(s, e);
    } else if e.RequestWritten? {
      RequestWrittenKeepsGate(s);
    } else if e.TakeResult? || e.DrainResult? {
      ResultIsGateNeutral(s, e);
    } else if e.ContextDone? || e.DrainGateTimeout? || e.DrainTimeout? {
      CancelIsGateNeutral(s, e);
    } else {
      EntryIsGateNeutral(s, e);
    }
  }

  lemma CloserKeepsGate(s: System, e: Event)
    requires GateInvariant(s) && Enabled(s, e) && !ByCommand(e) && !ByReader(e) && !ByPeer(e)
    ensures GateInvariant(ApplyCloser(s, e))
  {
    if e.CloserAcquire? {
      OpeningKeepsLog(s.log, s.sessions, [CANCEL_FRAGMENT]);
    } else if e.CloserWrite? {
      WriteKeepsLog(s, [CANCEL_FRAGMENT], 0, e.write);
    }
  }

  lemma StepKeepsGate(s: System, e: Event)
    requires GateInvariant(s) && Enabled(s, e)
    ensures GateInvariant(Apply(s, e))
  {
    if ByCommand(e) {
      CommandKeepsGate(s, e);
    } else if !ByReader(e) && !ByPeer(e) {
      CloserKeepsGate(s, e);
    }
  }

  // ------------------------------------------- the reader against a stream of fragments

  lemma {:induction false} ReceiveSplit(r: Reader, xs: seq<bytes>, ys: seq<bytes>)
    ensures ReceiveAll(r, xs + ys) == ReceiveAll(ReceiveAll(r, xs), ys)
    decreases |xs|
  {
    if xs == [] {
      assert xs + ys == ys;
    } else {
      assert (xs + ys)[1..] == xs[1..] + ys;
      ReceiveSplit(Receive(r, xs[0]), xs[1..], ys);
    }
  }

  lemma ReceiveLast(r: Reader, xs: seq<bytes>)
    requires xs != []
    ensures ReceiveAll(r, xs) == Receive(ReceiveAll(r, Front(xs)), Last(xs))
  {
    assert xs == Front(xs) + [Last(xs)];
    ReceiveSplit(r, Front(xs), [Last(xs)]);
    var last: seq<bytes> := [Last(xs)];
    assert last[1..] == [];
  }

  lemma {:induction false} ReceivePartial(r: Reader, fragments: seq<bytes>, frame: Frame, k: nat)
    requires r.Live? && !r.assembly.assembling && IsFraming(fragments, frame) && k < |fragments|
    ensures var e := ReceiveAll(r, fragments[..k]);
            && e.Live? && e.command == r.command
            && if k == 0 then !e.assembly.assembling else Holding(e.assembly, fragments[..k])
  {
    if k > 0 {
      ReceivePartial(r, fragments, frame, k - 1);
      assert Front(fragments[..k]) == fragments[..k - 1];
      ReceiveLast(r, fragments[..k]);
      NextFragment(ReceiveAll(r, fragments[..k - 1]).assembly, fragments, frame, k - 1);
    }
  }

  /** A whole frame reaches an idle reader: live before its last fragment, then the frame decides. */
  lemma ReceiveFrame(r: Reader, fragments: seq<bytes>, frame: Frame)
    requires r.Live? && !r.assembly.assembling && IsFraming(fragments, frame)
    ensures ReceiveAll(r, Front(fragments)).Live?
    ensures exists a: Assembly :: !a.assembling && ReceiveAll(r, fragments) == OnFrame(r.command, a, frame)
  {
    var k := |fragments| - 1;
    ReceivePartial(r, fragments, frame, k);
    ReceiveLast(r, fragments);
    var e := ReceiveAll(r, Front(fragments));
    NextFragment(e.assembly, fragments, frame, k);
    assert ReceiveAll(r, fragments) == OnFrame(r.command, Add(e.assembly, fragments[k]).0, frame);
  }

  // -------------------------------------------------- invariant: request/response pairing

  function OutcomeOf(frame: Frame): ReadOutcome {
    if frame.status == ERROR && frame.data != [] then ErrorResponse(frame.data[0]) else Answered(frame)
  }

  function InFlight(s: System): seq<bytes> {
    s.queue + s.sending
  }

  /** The reader would be between frames, still waiting, after everything in flight. */
  ghost predicate Awaits(r: Reader, stream: seq<bytes>) {
    && r.Live?
    && var e := ReceiveAll(r, stream);
       e.Live? && e.command == r.command && !e.assembly.assembling
  }

  /** The last fragment in flight, and none before it, completes `answer`. */
  ghost predicate Converges(r: Reader, stream: seq<bytes>, answer: Frame) {
    && r.Live? && stream != []
    && ReceiveAll(r, Front(stream)).Live?
    && ReceiveAll(r, stream) == Finished(OutcomeOf(answer))
  }

  ghost predicate AllAnswered(s: System) {
    |s.requests| == |s.answers| == s.sent && s.queue == [] && s.sending == []
  }

  /** The peer has request number `n` of `call`; a reader `r` will get its answer and nothing else. */
  ghost predicate Paired(s: System, call: Call, r: Reader, n: nat) {
    && n > 0 && |s.requests| == n && s.requests[n - 1] == RequestFrame(call)
    && !s.peer.assembling
    && r.Live? && r.command == call.command
    && if |s.answers| == n then
         Converges(r, InFlight(s), s.answers[n - 1]) && Terminal(s.answers[n - 1], RequestFrame(call))
       else
         |s.answers| == n - 1 && Awaits(r, InFlight(s))
  }

  ghost predicate Collected(s: System, call: Call, outcome: ReadOutcome) {
    && AllAnswered(s) && s.sent > 0 && !s.peer.assembling
    && s.requests[s.sent - 1] == RequestFrame(call)
    && Terminal(s.answers[s.sent - 1], RequestFrame(call))
    && outcome == OutcomeOf(s.answers[s.sent - 1])
  }

  ghost predicate ExchangeInvariant(s: System, call: Call) {
    match s.reader
    case NoReader => false
    case Live(_, _) => Paired(s, call, s.reader, s.sent)
    case Finished(outcome) => outcome == ReadFailed || Collected(s, call, outcome)
  }

  ghost predicate WritingInvariant(s: System, call: Call, done: nat) {
    var fragments := RequestFragments(s, call);
    && s.reader.NoReader? && done <= |fragments|
    && if done == |fragments| then Paired(s, call, Live(call.command, IDLE), s.sent + 1)
       else AllAnswered(s) && if done == 0 then !s.peer.assembling else Holding(s.peer, fragments[..done])
  }

  ghost predicate StreamInvariant(s: System) {
    match s.op
    case NoOp => AllAnswered(s) && !s.peer.assembling && s.reader.NoReader?
    case Ready(_) => AllAnswered(s) && !s.peer.assembling && s.reader.NoReader?
    case Backoff(_) => AllAnswered(s) && !s.peer.assembling && s.reader.NoReader?
    case Writing(call, done) => WritingInvariant(s, call, done)
    case Exchanging(call) => ExchangeInvariant(s, call)
    case DrainReady(call) => ExchangeInvariant(s, call)
    case DrainWriting(call) => ExchangeInvariant(s, call)
    case Draining(call) => ExchangeInvariant(s, call)
    case Closing => true
  }

  /** Once a command has come back through Close, the peripheral takes no write, so no later
      command ever gets as far as an exchange. */
  ghost predicate SpoiledInvariant(s: System) {
    && (s.orphans > 0 ==> s.spoiled)
    && (s.spoiled ==>
          s.closer.Done? && (s.op.NoOp? || s.op.Ready? || s.op.Closing? || (s.op.Writing? && s.op.done == 0)))
  }

  ghost predicate PairingInvariant(s: System) {
    SpoiledInvariant(s) && (!s.spoiled ==> StreamInvariant(s))
  }

  // ---- steps of the peer

  lemma KeepaliveKeepsPaired(s: System, call: Call, r: Reader, n: nat, fragments: seq<bytes>, status: byte)
    requires Paired(s, call, r, n) && Enabled(s, PeerKeepalive(fragments, status))
    ensures Paired(s.(sending := fragments), call, r, n)
  {
    assert InFlight(s) == s.queue;
    ReceiveFrame(ReceiveAll(r, s.queue), fragments, Frame(KEEPALIVE, [status]));
    ReceiveSplit(r, s.queue, fragments);
  }

  lemma AnswerKeepsPaired(s: System, call: Call, r: Reader, n: nat, frame: Frame, fragments: seq<bytes>)
    requires Paired(s, call, r, n) && Enabled(s, PeerAnswer(frame, fragments))
    ensures Paired(s.(sending := fragments, answers := s.answers + [frame]), call, r, n)
  {
    assert InFlight(s) == s.queue;
    ReceiveFrame(ReceiveAll(r, s.queue), fragments, frame);
    ReceiveSplit(r, s.queue, fragments);
    ReceiveSplit(r, s.queue, Front(fragments));
    assert Front(s.queue + fragments) == s.queue + Front(fragments);
  }

  lemma PeerKeepsPaired(s: System, call: Call, r: Reader, n: nat, e: Event)
    requires Paired(s, call, r, n) && ByPeer(e) && Enabled(s, e)
    ensures Paired(ApplyPeer(s, e), call, r, n)
  {
    match e
    case PeerKeepalive(fragments, status) => KeepaliveKeepsPaired(s, call, r, n, fragments, status);
    case PeerAnswer(frame, fragments) => AnswerKeepsPaired(s, call, r, n, frame, fragments);
    case PeerSend => assert InFlight(ApplyPeer(s, e)) == InFlight(s);
  }

  /** A peer that owes nothing has nothing to say. */
  lemma PeerSilent(s: System, e: Event)
    requires AllAnswered(s) && ByPeer(e)
    ensures !Enabled(s, e)
  {}

  lemma PeerKeepsWriting(s: System, call: Call, done: nat, e: Event)
    requires WritingInvariant(s, call, done) && ByPeer(e) && Enabled(s, e)
    ensures WritingInvariant(ApplyPeer(s, e), call, done)
  {
    if done == |RequestFragments(s, call)| {
      PeerKeepsPaired(s, call, Live(call.command, IDLE), s.sent + 1, e);
    } else {
      PeerSilent(s, e);
    }
  }

  lemma PeerKeepsExchange(s: System, call: Call, e: Event)
    requires ExchangeInvariant(s, call) && ByPeer(e) && Enabled(s, e)
    ensures ExchangeInvariant(ApplyPeer(s, e), call)
  {
    if s.reader.Live? {
      PeerKeepsPaired(s, call, s.reader, s.sent, e);
    } else if s.reader.outcome != ReadFailed {
      PeerSilent(s, e);
    }
  }

  predicate Exchanges(op: Op) {
    op.Exchanging? || op.DrainReady? || op.DrainWriting? || op.Draining?
  }

  lemma PeerKeepsPairing(s: System, e: Event)
    requires PairingInvariant(s) && ByPeer(e) && Enabled(s, e)
    ensures PairingInvariant(ApplyPeer(s, e))
  {
    if !s.spoiled {
      if s.op.Writing? {
        PeerKeepsWriting(s, s.op.call, s.op.done, e);
      } else if Exchanges(s.op) {
        PeerKeepsExchange(s, s.op.call, e);
      } else if !s.op.Closing? {
        PeerSilent(s, e);
      }
    }
  }

  // ---- steps of the reader

  lemma AwaitsStep(r: Reader, stream: seq<bytes>)
    requires Awaits(r, stream) && stream != []
    ensures Receive(r, stream[0]).Live? && Receive(r, stream[0]).command == r.command
    ensures Awaits(Receive(r, stream[0]), stream[1..])
  {
    ResultIsFinal(Receive(r, stream[0]), stream[1..]);
  }

  lemma ConvergesStep(r: Reader, stream: seq<bytes>, answer: Frame)
    requires Converges(r, stream, answer)
    ensures var t := Receive(r, stream[0]);
            if |stream| == 1 then t == Finished(OutcomeOf(answer))
            else t.Live? && t.command == r.command && Converges(t, stream[1..], answer)
  {
    var t := Receive(r, stream[0]);
    if |stream| == 1 {
      assert stream[1..] == [];
    } else {
      assert Front(stream)[0] == stream[0] && Front(stream)[1..] == Front(stream[1..]);
      ResultIsFinal(t, Front(stream[1..]));
    }
  }

  lemma FragmentKeepsPaired(s: System, call: Call)
    requires s.reader.Live? && Paired(s, call, s.reader, s.sent) && s.queue != []
    ensures ExchangeInvariant(ApplyReader(s, ReadFragment), call)
  {
    var t := ApplyReader(s, ReadFragment);
    var stream := InFlight(s);
    assert stream[0] == s.queue[0] && stream[1..] == InFlight(t);
    if |s.answers| == s.sent {
      ConvergesStep(s.reader, stream, s.answers[s.sent - 1]);
    } else {
      AwaitsStep(s.reader, stream);
    }
  }

  lemma ReaderKeepsPairing(s: System, e: Event)
    requires PairingInvariant(s) && ByReader(e) && Enabled(s, e)
    ensures PairingInvariant(ApplyReader(s, e))
  {
    if !s.spoiled && Exchanges(s.op) && e.ReadFragment? {
      FragmentKeepsPaired(s, s.op.call);
    }
  }

  // ---- steps of Close

  lemma DeliverCancel(s: System)
    requires !s.peer.assembling
    ensures var t := Deliver(s, CANCEL_FRAGMENT);
            t == s.(peer := t.peer) && !t.peer.assembling
  {
    assert CANCEL_FRAGMENT[3..] == [];
  }

  lemma CancelKeepsStream(s: System, w: WriteResult)
    requires StreamInvariant(s) && !s.op.Writing?
    ensures StreamInvariant(Write(s, CANCEL_FRAGMENT, w))
  {
    if !w.FailedUnseen? && !s.peer.assembling {
      DeliverCancel(Wrote(s, CANCEL_FRAGMENT, !w.Ok?));
    }
  }

  lemma CloserKeepsPairing(s: System, e: Event)
    requires GateInvariant(s) && PairingInvariant(s)
    requires Enabled(s, e) && !ByCommand(e) && !ByReader(e) && !ByPeer(e)
    ensures PairingInvariant(ApplyCloser(s, e))
  {
    if !s.spoiled {
      if e.CloserWrite? {
        CancelKeepsStream(s, e.write);
        SameStream(Write(s, CANCEL_FRAGMENT, e.write), ApplyCloser(s, e));
      } else {
        SameStream(s, ApplyCloser(s, e));
      }
    }
  }

  /** The stream invariant looks at nothing but these fields. */
  lemma SameStream(s: System, t: System)
    requires StreamInvariant(s)
    requires t.op == s.op && t.reader == s.reader && t.controlPointLength == s.controlPointLength
    requires t.peer == s.peer && t.requests == s.requests && t.answers == s.answers && t.sent == s.sent
    requires t.queue == s.queue && t.sending == s.sending
    ensures StreamInvariant(t)
  {}

  // ---- steps of the command

  lemma RequestFragmentDelivered(s: System, call: Call, done: nat)
    requires WritingInvariant(s, call, done) && done < |RequestFragments(s, call)|
    ensures WritingInvariant(Deliver(s, RequestFragments(s, call)[done]), call, done + 1)
  {
    var fragments := RequestFragments(s, call);
    FragmentsAreFraming(RequestFrame(call), s.controlPointLength);
    assert fragments[..0] == [];
    NextFragment(s.peer, fragments, RequestFrame(call), done);
    if done + 1 == |fragments| {
      RequestDelivered(s, call, fragments[done]);
    }
  }

  /** The fragment that completes the request leaves the peer owing its answer and nothing in flight. */
  lemma RequestDelivered(s: System, call: Call, fragment: bytes)
    requires AllAnswered(s)
    requires var (a, out) := Add(s.peer, fragment); out == Success(Some(RequestFrame(call))) && !a.assembling
    ensures Paired(Deliver(s, fragment), call, Live(call.command, IDLE), s.sent + 1)
  {
    var t := Deliver(s, fragment);
    assert t.requests == s.requests + [RequestFrame(call)];
    assert InFlight(t) == [];
    assert Awaits(Live(call.command, IDLE), InFlight(t));
  }

  lemma WriteFragmentKeepsPairing(s: System, w: WriteResult)
    requires PairingInvariant(s) && Enabled(s, WriteFragment(w))
    ensures PairingInvariant(ApplyCommand(s, WriteFragment(w)))
  {
    var fragment := RequestFragments(s, s.op.call)[s.op.done];
    WriteTouches(s, fragment, w);
    if w.Ok? {
      WrittenFragmentKeepsStream(s);
    }
  }

  /** A write leaves the reader, the answers and everything in flight alone. */
  lemma WriteTouches(s: System, fragment: bytes, w: WriteResult)
    ensures var t := Write(s, fragment, w);
            && t.op == s.op && t.reader == s.reader && t.orphans == s.orphans && t.spoiled == s.spoiled && t.closer == s.closer
            && t.controlPointLength == s.controlPointLength && t.answers == s.answers && t.sent == s.sent
            && t.queue == s.queue && t.sending == s.sending
  {}

  lemma WrittenFragmentKeepsStream(s: System)
    requires PairingInvariant(s) && Enabled(s, WriteFragment(Ok))
    ensures StreamInvariant(ApplyCommand(s, WriteFragment(Ok)))
  {
    var call, done := s.op.call, s.op.done;
    var fragment := RequestFragments(s, call)[done];
    RequestFragmentDelivered(Wrote(s, fragment, false), call, done);
    var t := Write(s, fragment, Ok);
    assert WritingInvariant(t, call, done + 1);
  }

  lemma DrainWriteKeepsPairing(s: System, w: WriteResult)
    requires PairingInvariant(s) && Enabled(s, DrainWrite(w))
    ensures PairingInvariant(ApplyCommand(s, DrainWrite(w)))
  {
    WriteTouches(s, CANCEL_FRAGMENT, w);
    if w.Ok? {
      CancelKeepsStream(s, w);
    }
  }

  lemma RequestWrittenKeepsPairing(s: System)
    requires PairingInvariant(s) && Enabled(s, RequestWritten)
    ensures PairingInvariant(ApplyCommand(s, RequestWritten))
  {}

  lemma TakenResultKeepsPairing(s: System)
    requires PairingInvariant(s) && Enabled(s, TakeResult)
    ensures PairingInvariant(ApplyCommand(s, TakeResult))
  {}

  lemma DrainedResultKeepsPairing(s: System)
    requires PairingInvariant(s) && Enabled(s, DrainResult)
    ensures PairingInvariant(ApplyCommand(s, DrainResult))
  {}

  /** The remaining steps leave the peer, the flight and the reader alone. */
  lemma LocalStepKeepsPairing(s: System, e: Event)
    requires PairingInvariant(s) && Enabled(s, e) && ByCommand(e)
    requires !e.WriteFragment? && !e.RequestWritten? && !e.TakeResult? && !e.DrainResult? && !e.DrainWrite?
    requires !e.CloseReturns?
    ensures PairingInvariant(ApplyCommand(s, e))
  {
    var t := ApplyCommand(s, e);
    if !s.spoiled && !t.op.Closing? {
      SameStream(s.(op := t.op), t);
    }
  }

  lemma CommandKeepsPairing(s: System, e: Event)
    requires PairingInvariant(s) && ByCommand(e) && Enabled(s, e)
    ensures PairingInvariant(ApplyCommand(s, e))
  {
    if e.WriteFragment? {
      WriteFragmentKeepsPairing(s, e.write);
    } else if e.DrainWrite? {
      DrainWriteKeepsPairing(s, e.write);
    } else if e.RequestWritten? {
      RequestWrittenKeepsPairing(s);
    } else if e.TakeResult? {
      TakenResultKeepsPairing(s);
    } else if e.DrainResult? {
      DrainedResultKeepsPairing(s);
    } else if !e.CloseReturns? {
      LocalStepKeepsPairing(s, e);
    }
  }

  // ------------------------------------------------------ invariant: what came back, what failed

  /** What a command returned is the peer's answer to that very request of that very call: the frame
      with the command's status, or the code of an ERROR frame other than ERR_BUSY. */
  ghost predicate IsPaired(s: System, e: Exchange) {
    && 0 <= e.attempt < |s.requests| && e.attempt < |s.answers|
    && s.requests[e.attempt] == Frame(e.call.command, e.call.data)
    && var answer := s.answers[e.attempt];
       || (e.outcome == Answered(answer) && answer.status == e.call.command)
       || (answer.status == 0xbf && |answer.data| == 1 && answer.data != [0x06] && e.outcome == ErrorResponse(answer.data[0]))
  }

  ghost predicate ReturnInvariant(s: System) {
    forall e :: e in s.returned ==> IsPaired(s, e)
  }

  lemma WriteGrows(s: System, fragment: bytes, w: WriteResult)
    ensures s.requests <= Write(s, fragment, w).requests && s.answers == Write(s, fragment, w).answers
    ensures Write(s, fragment, w).returned == s.returned
  {}

  lemma CommandGrows(s: System, e: Event)
    requires Enabled(s, e) && ByCommand(e)
    ensures s.requests <= ApplyCommand(s, e).requests && s.answers == ApplyCommand(s, e).answers
    ensures !e.TakeResult? ==> ApplyCommand(s, e).returned == s.returned
  {
    if e.WriteFragment? {
      WriteGrows(s, RequestFragments(s, s.op.call)[s.op.done], e.write);
    } else if e.DrainWrite? {
      WriteGrows(s, CANCEL_FRAGMENT, e.write);
    }
  }

  lemma StepGrows(s: System, e: Event)
    requires Enabled(s, e)
    ensures s.requests <= Apply(s, e).requests && s.answers <= Apply(s, e).answers
    ensures !e.TakeResult? ==> Apply(s, e).returned == s.returned
  {
    if ByCommand(e) {
      CommandGrows(s, e);
    } else if e.CloserWrite? {
      WriteGrows(s, CANCEL_FRAGMENT, e.write);
    }
  }

  /** A result that is not a read failure is the meaning of the peer's last answer, which is to the
      command's own last request. */
  lemma ResultIsAnswer(s: System)
    requires PairingInvariant(s) && Enabled(s, TakeResult) && s.reader.outcome != ReadFailed
    ensures s.sent == |s.requests| == |s.answers| > 0
    ensures var answer := s.answers[s.sent - 1];
            && s.requests[s.sent - 1] == Frame(s.op.call.command, s.op.call.data)
            && if answer.status == s.op.call.command then s.reader.outcome == Answered(answer)
               else answer.status == 0xbf && |answer.data| == 1 && s.reader.outcome == ErrorResponse(answer.data[0])
  {}

  lemma StepKeepsReturns(s: System, e: Event)
    requires PairingInvariant(s) && ReturnInvariant(s) && Enabled(s, e)
    ensures ReturnInvariant(Apply(s, e))
  {
    StepGrows(s, e);
    if e.TakeResult? {
      TakeKeepsReturns(s);
    } else {
      ReturnsCarryOver(s, Apply(s, e));
    }
  }

  lemma ReturnsCarryOver(s: System, t: System)
    requires ReturnInvariant(s) && t.returned == s.returned && s.requests <= t.requests && s.answers <= t.answers
    ensures ReturnInvariant(t)
  {}

  lemma TakeKeepsReturns(s: System)
    requires PairingInvariant(s) && ReturnInvariant(s) && Enabled(s, TakeResult)
    ensures ReturnInvariant(AfterResult(s, s.op.call))
  {
    if s.reader.outcome == ReadFailed || s.reader.outcome == ErrorResponse(ERR_BUSY) {
      ReturnsCarryOver(s, AfterResult(s, s.op.call));
    } else {
      ResultIsAnswer(s);
      ReturningKeepsReturns(s);
    }
  }

  lemma ReturningKeepsReturns(s: System)
    requires ReturnInvariant(s) && s.op.Exchanging? && s.reader.Finished?
    requires IsPaired(s, Exchange(s.sent - 1, s.op.call, s.reader.outcome))
    ensures ReturnInvariant(Returning(s, s.op.call))
  {
    var t, added := Returning(s, s.op.call), Exchange(s.sent - 1, s.op.call, s.reader.outcome);
    forall e | e in t.returned ensures IsPaired(t, e) {
      assert e == added || e in s.returned;
    }
  }

  predicate IsRequest(session: Session) {
    session.fragments != [CANCEL_FRAGMENT]
  }

  /** What a session writes is one frame: CANCEL, or the request of one call. */
  ghost predicate OneFrame(session: Session, controlPointLength: ControlPointLength) {
    || session.fragments == [CANCEL_FRAGMENT]
    || exists call: Call :: session.fragments == Fragments(RequestFrame(call), controlPointLength)
  }

  /** A failed request write is followed by Close before the lock is released; a failed CANCEL is
      written either by such a command or by Close itself. */
  ghost predicate FailureHandled(s: System, session: Session) {
    session.failed ==>
      || s.op.Closing? || s.spoiled
      || (!IsRequest(session) && (s.closer.Marking? || s.closer.Finishing? || s.closer.Done?))
  }

  ghost predicate SessionInvariant(s: System) {
    forall session :: session in s.sessions ==> OneFrame(session, s.controlPointLength) && FailureHandled(s, session)
  }

  lemma SessionsCarryOver(s: System, t: System)
    requires SessionInvariant(s) && t.controlPointLength == s.controlPointLength
    requires forall session :: session in t.sessions && session !in s.sessions ==>
               OneFrame(session, t.controlPointLength) && FailureHandled(t, session)
    requires forall session :: session in s.sessions && FailureHandled(s, session) ==> FailureHandled(t, session)
    ensures SessionInvariant(t)
  {}

  lemma AcquireKeepsSessions(s: System)
    requires GateInvariant(s) && SessionInvariant(s) && Enabled(s, AcquireGate)
    ensures SessionInvariant(ApplyCommand(s, AcquireGate))
  {
    var t := ApplyCommand(s, AcquireGate);
    var added := Session(Fragments(RequestFrame(s.op.call), s.controlPointLength), 0, false);
    assert t.sessions == s.sessions + [added] && OneFrame(added, t.controlPointLength);
    SessionsCarryOver(s, t);
  }

  lemma WriteKeepsSessions(s: System, t: System, failed: bool)
    requires SessionInvariant(s) && s.sessions != [] && t.controlPointLength == s.controlPointLength
    requires var open := Last(s.sessions);
             t.sessions == Front(s.sessions) + [open.(done := open.done + 1, failed := failed)]
    requires failed ==> t.op.Closing? || t.spoiled
                        || (!IsRequest(Last(s.sessions)) && (t.closer.Marking? || t.closer.Finishing? || t.closer.Done?))
    requires s.op.Closing? || s.spoiled ==> t.op.Closing? || t.spoiled
    requires s.closer.Marking? || s.closer.Finishing? || s.closer.Done? ==> t.closer == s.closer
    ensures SessionInvariant(t)
  {
    var open := Last(s.sessions);
    var now := open.(done := open.done + 1, failed := failed);
    assert open in s.sessions;
    assert OneFrame(now, t.controlPointLength) && FailureHandled(t, now);
    forall session | session in t.sessions ensures session == now || session in s.sessions {}
    SessionsCarryOver(s, t);
  }

  lemma DrainAcquireKeepsSessions(s: System)
    requires SessionInvariant(s) && Enabled(s, DrainAcquire)
    ensures SessionInvariant(ApplyCommand(s, DrainAcquire))
  {
    SessionsCarryOver(s, ApplyCommand(s, DrainAcquire));
  }

  lemma OtherStepKeepsSessions(s: System, e: Event)
    requires SessionInvariant(s) && Enabled(s, e) && ByCommand(e)
    requires !e.AcquireGate? && !e.DrainAcquire? && !e.WriteFragment? && !e.DrainWrite?
    ensures SessionInvariant(ApplyCommand(s, e))
  {
    var t := ApplyCommand(s, e);
    assert t.sessions == s.sessions && t.closer == s.closer;
    assert s.op.Closing? || s.spoiled ==> t.op.Closing? || t.spoiled;
    SessionsCarryOver(s, t);
  }

  lemma FragmentKeepsSessions(s: System, w: WriteResult)
    requires GateInvariant(s) && SessionInvariant(s) && Enabled(s, WriteFragment(w))
    ensures SessionInvariant(ApplyCommand(s, WriteFragment(w)))
  {
    WriteTouches(s, RequestFragments(s, s.op.call)[s.op.done], w);
    WriteKeepsSessions(s, ApplyCommand(s, WriteFragment(w)), !w.Ok?);
  }

  lemma CancelKeepsSessions(s: System, w: WriteResult)
    requires GateInvariant(s) && SessionInvariant(s) && Enabled(s, DrainWrite(w))
    ensures SessionInvariant(ApplyCommand(s, DrainWrite(w)))
  {
    WriteTouches(s, CANCEL_FRAGMENT, w);
    WriteKeepsSessions(s, ApplyCommand(s, DrainWrite(w)), !w.Ok?);
  }

  lemma CommandKeepsSessions(s: System, e: Event)
    requires GateInvariant(s) && SessionInvariant(s) && Enabled(s, e) && ByCommand(e)
    ensures SessionInvariant(ApplyCommand(s, e))
  {
    if e.AcquireGate? {
      AcquireKeepsSessions(s);
    } else if e.WriteFragment? {
      FragmentKeepsSessions(s, e.write);
    } else if e.DrainWrite? {
      CancelKeepsSessions(s, e.write);
    } else if e.DrainAcquire? {
      DrainAcquireKeepsSessions(s);
    } else {
      OtherStepKeepsSessions(s, e);
    }
  }

  lemma CloserKeepsSessions(s: System, e: Event)
    requires GateInvariant(s) && SessionInvariant(s) && Enabled(s, e) && !ByCommand(e) && !ByReader(e) && !ByPeer(e)
    ensures SessionInvariant(ApplyCloser(s, e))
  {
    if e.CloserWrite? {
      WriteKeepsSessions(s, ApplyCloser(s, e), !e.write.Ok?);
    } else {
      SessionsCarryOver(s, ApplyCloser(s, e));
    }
  }

  lemma StepKeepsSessions(s: System, e: Event)
    requires GateInvariant(s) && SessionInvariant(s) && Enabled(s, e)
    ensures SessionInvariant(Apply(s, e))
  {
    if ByCommand(e) {
      CommandKeepsSessions(s, e);
    } else if ByReader(e) || ByPeer(e) {
      SessionsCarryOver(s, Apply(s, e));
    } else {
      CloserKeepsSessions(s, e);
    }
  }

  // ------------------------------------------------------------------------- whole runs

  ghost predicate Invariant(s: System) {
    GateInvariant(s) && PairingInvariant(s) && ReturnInvariant(s) && SessionInvariant(s)
  }

  ghost predicate IsRun(states: seq<System>, events: seq<Event>) {
    && |states| == |events| + 1
    && Initial(states[0])
    && forall i :: 0 <= i < |events| ==> Enabled(states[i], events[i]) && states[i + 1] == Apply(states[i], events[i])
  }

  lemma StepKeepsInvariant(s: System, e: Event)
    requires Invariant(s) && Enabled(s, e)
    ensures Invariant(Apply(s, e))
  {
    StepKeepsGate(s, e);
    StepKeepsReturns(s, e);
    StepKeepsSessions(s, e);
    if ByCommand(e) {
      CommandKeepsPairing(s, e);
    } else if ByReader(e) {
      ReaderKeepsPairing(s, e);
    } else if ByPeer(e) {
      PeerKeepsPairing(s, e);
    } else {
      CloserKeepsPairing(s, e);
    }
  }

  lemma {:induction false} RunKeepsInvariant(states: seq<System>, events: seq<Event>, i: nat)
    requires IsRun(states, events) && i < |states|
    ensures Invariant(states[i])
  {
    if i > 0 {
      RunKeepsInvariant(states, events, i - 1);
      StepKeepsInvariant(states[i - 1], events[i - 1]);
    }
  }

  /** Whenever the command lock is free the transport is closed, or the peer owes nothing and no
      notification is under way or queued: whatever was canceled, drained, retried or closed. */
  lemma LockFreeMeansClosedOrDrained(states: seq<System>, events: seq<Event>, i: nat)
    requires IsRun(states, events) && i < |states| && states[i].op.NoOp?
    ensures states[i].closer.Done?
         || (|states[i].requests| == |states[i].answers| && states[i].queue == [] && states[i].sending == [])
  {
    RunKeepsInvariant(states, events, i);
  }

  /** When an attempt has its result, and reading did not fail, the peer's last answer decides: after
      ERR_BUSY the command keeps the lock and backs off, after any other answer it returns that answer,
      which is to its own last request; and what it returned stays so for the rest of the run. */
  lemma ReturnsAnswerToOwnLastAttempt(states: seq<System>, events: seq<Event>, i: nat, j: nat)
    requires IsRun(states, events) && i < |events| && i < j < |states|
    requires events[i].TakeResult? && states[i].reader.outcome != ReadFailed
    ensures var s, t := states[i], states[i + 1];
            && |s.requests| == |s.answers| > 0
            && s.requests[|s.requests| - 1] == Frame(s.op.call.command, s.op.call.data)
            && var answer := s.answers[|s.answers| - 1];
               if answer == Frame(0xbf, [0x06]) then
                 t.op == Backoff(s.op.call) && t.reader == NoReader && t.returned == s.returned
                 && t.closer == s.closer && t.activeMSG == s.activeMSG
               else
                 && t.op.NoOp? && t.reader == NoReader && |t.returned| == |s.returned| + 1
                 && t.returned[..|s.returned|] == s.returned
                 && var e := t.returned[|s.returned|];
                    && e.attempt == |s.requests| - 1 && e.call == s.op.call
                    && (answer.status == s.op.call.command ==> e.outcome == Answered(answer))
                    && (answer.status != s.op.call.command ==>
                          answer.status == 0xbf && |answer.data| == 1 && e.outcome == ErrorResponse(answer.data[0]))
    ensures forall e :: e in states[j].returned ==> IsPaired(states[j], e)
  {
    RunKeepsInvariant(states, events, i);
    RunKeepsInvariant(states, events, j);
    ResultIsAnswer(states[i]);
    TakenResult(states[i]);
  }

  lemma TakenResult(s: System)
    requires PairingInvariant(s) && Enabled(s, TakeResult) && s.reader.outcome != ReadFailed
    requires s.sent == |s.requests| == |s.answers| > 0
    ensures var t := Apply(s, TakeResult);
            if s.answers[s.sent - 1] == Frame(0xbf, [0x06]) then t == s.(op := Backoff(s.op.call), reader := NoReader)
            else t == Return(s).(returned := s.returned + [Exchange(s.sent - 1, s.op.call, s.reader.outcome)])
  {
    ResultIsAnswer(s);
  }

  /** No two frames ever mix on the control point: the log is a concatenation of prefixes of
      single frames, each whole unless it is the one being written or a write in it failed; and
      once the lock is free a failed request write means the transport is closed. */
  lemma WritesNeverInterleave(states: seq<System>, events: seq<Event>, i: nat)
    requires IsRun(states, events) && i < |states|
    ensures SessionsInBounds(states[i].sessions) && states[i].log == Written(states[i].sessions)
    ensures forall session :: session in states[i].sessions ==> OneFrame(session, states[i].controlPointLength)
    ensures Settled(states[i].sessions, states[i].gate)
    ensures states[i].op.NoOp? ==> forall session :: session in states[i].sessions ==>
              session.failed && IsRequest(session) ==> states[i].closer.Done?
  {
    RunKeepsInvariant(states, events, i);
  }

  // --------------------------------------------------------------------------- progress

  /** How many steps Close is from having returned. */
  function CloserDistance(c: Closer): nat {
    match c
    case Quiet => 4
    case CloserReady => 3
    case CloserWriting => 3
    case Marking => 2
    case Finishing => 1
    case Done => 0
  }

  /** How many steps the command is from asking for Close, or from releasing the lock without it. */
  function OpDistance(s: System): nat {
    match s.op
    case NoOp => 0
    case Closing => 1
    case Draining(_) => 2
    case DrainWriting(_) => 3
    case DrainReady(_) => 2
    case Backoff(_) => 1
    case Exchanging(_) => 3
    case Ready(_) => 2
    case Writing(call, done) => 4 + |RequestFragments(s, call)| - Min(done, |RequestFragments(s, call)|)
  }

  function Distance(s: System): nat {
    OpDistance(s) + CloserDistance(s.closer)
  }

  /** A step towards the free lock: no answer of the peer is waited for, and a write succeeds unless
      the transport is closed. */
  function NextStep(s: System): Event
    requires !s.op.NoOp?
  {
    var w := if s.closer.Done? then FailedUnseen else Ok;
    match s.op
    case Ready(_) => GateCanceled
    case Writing(call, done) => if done < |RequestFragments(s, call)| then WriteFragment(w) else RequestWritten
    case Exchanging(_) => ContextDone
    case Backoff(_) => RetryCanceled
    case DrainReady(_) => DrainGateTimeout
    case DrainWriting(_) => DrainWrite(w)
    case Draining(_) => DrainTimeout
    case Closing =>
      match s.closer
      case Quiet => CloserBegin
      case CloserReady => CloserGateTimeout
      case CloserWriting => CloserWrite(Ok)
      case Marking => CloserMark
      case Finishing => CloserFinish
      case Done => CloseReturns
  }

  predicate ByCloser(e: Event) {
    !ByCommand(e) && !ByReader(e) && !ByPeer(e)
  }

  lemma WriteKeepsLength(s: System, fragment: bytes, w: WriteResult)
    ensures Write(s, fragment, w).controlPointLength == s.controlPointLength && Write(s, fragment, w).closer == s.closer
    ensures Write(s, fragment, w).op == s.op
  {}

  lemma WriterProgresses(s: System)
    requires GateInvariant(s) && s.op.Writing?
    ensures Enabled(s, NextStep(s)) && Distance(Apply(s, NextStep(s))) < Distance(s)
  {
    var fragments := RequestFragments(s, s.op.call);
    assert s.op.done <= |fragments|;
    if s.op.done < |fragments| {
      WriteKeepsLength(s, fragments[s.op.done], if s.closer.Done? then FailedUnseen else Ok);
    }
  }

  lemma CommandProgresses(s: System)
    requires !s.op.NoOp? && !s.op.Writing? && !s.op.Closing?
    ensures Enabled(s, NextStep(s)) && Distance(Apply(s, NextStep(s))) < Distance(s)
  {
    if s.op.DrainWriting? {
      WriteKeepsLength(s, CANCEL_FRAGMENT, if s.closer.Done? then FailedUnseen else Ok);
    }
  }

  lemma CloserProgresses(s: System)
    requires s.op.Closing?
    ensures Enabled(s, NextStep(s)) && Distance(Apply(s, NextStep(s))) < Distance(s)
  {
    if s.closer.CloserWriting? {
      WriteKeepsLength(s, CANCEL_FRAGMENT, Ok);
    }
  }

  ghost predicate Leads(s: System, events: seq<Event>, t: System)
    decreases |events|
  {
    if events == [] then s == t
    else Enabled(s, events[0]) && Leads(Apply(s, events[0]), events[1..], t)
  }

  /** The command lock is never stuck: from every reachable state a bounded number of the command's and
      Close's own steps releases it, without any help from the peer. */
  lemma {:induction false} LockIsReleased(s: System) returns (events: seq<Event>, t: System)
    requires GateInvariant(s)
    ensures Leads(s, events, t) && t.op.NoOp? && |events| <= Distance(s)
    ensures forall e :: e in events ==> ByCommand(e) || ByCloser(e)
    decreases Distance(s)
  {
    if s.op.NoOp? {
      return [], s;
    }
    if s.op.Writing? {
      WriterProgresses(s);
    } else if s.op.Closing? {
      CloserProgresses(s);
    } else {
      CommandProgresses(s);
    }
    var e := NextStep(s);
    StepKeepsGate(s, e);
    var rest;
    rest, t := LockIsReleased(Apply(s, e));
    events := [e] + rest;
    assert events[1..] == rest;
  }

  /** In every state of every run: at most seven steps, or eight and the fragments of a request being written. */
  lemma ReleaseIsBounded(states: seq<System>, events: seq<Event>, i: nat) returns (more: seq<Event>, t: System)
    requires IsRun(states, events) && i < |states|
    ensures Leads(states[i], more, t) && t.op.NoOp?
    ensures forall e :: e in more ==> ByCommand(e) || ByCloser(e)
    ensures |more| <= if states[i].op.Writing? then 8 + |RequestFragments(states[i], states[i].op.call)| else 7
  {
    RunKeepsInvariant(states, events, i);
    more, t := LockIsReleased(states[i]);
  }

  // ----------------------------------------------------------------- what each step means

  /** Nothing is ruled out: every write may fail, seen by the peer or not, and succeeds only before the
      transport is closed. */
  lemma AnyWriteResult(s: System, w: WriteResult)
    requires s.closer.Done? ==> w != Ok
    ensures s.op.Writing? && s.op.done < |RequestFragments(s, s.op.call)| ==> Enabled(s, WriteFragment(w))
    ensures s.op.DrainWriting? ==> Enabled(s, DrainWrite(w))
    ensures s.closer.CloserWriting? ==> Enabled(s, CloserWrite(w))
  {}

  /** Contexts end and timers fire whenever the command waits for them. */
  lemma AnyTimer(s: System)
    ensures s.op.Ready? ==> Enabled(s, GateCanceled)
    ensures s.op.Exchanging? ==> Enabled(s, ContextDone) && (s.reader.Finished? ==> Enabled(s, TakeResult))
    ensures s.op.DrainReady? ==> Enabled(s, DrainGateTimeout)
    ensures s.op.Draining? ==> Enabled(s, DrainTimeout) && (s.reader.Finished? ==> Enabled(s, DrainResult))
    ensures s.op.Backoff? ==> Enabled(s, RetryTimer) && Enabled(s, RetryCanceled)
  {}

  /** Reads succeed and fail, and Close begins and gives up, whenever they can. */
  lemma AnyReadAndClose(s: System)
    ensures s.reader.Live? ==> Enabled(s, ReadFault) && (s.queue != [] ==> Enabled(s, ReadFragment))
    ensures s.orphans > 0 && s.queue != [] ==> Enabled(s, OrphanTakes)
    ensures s.closer.Quiet? ==> Enabled(s, CloserBegin)
    ensures s.closer.CloserReady? ==> Enabled(s, CloserGateTimeout) && (!s.gate ==> Enabled(s, CloserAcquire))
  {}

  /** A peer that owes an answer may send keepalives, any one-byte error and any frame of the request's
      status, cut into fragments in any way, one fragment at a time. */
  lemma AnyAnswer(s: System, fragments: seq<bytes>, status: byte, frame: Frame)
    requires |s.answers| < |s.requests| && s.sending == []
    ensures IsFraming(fragments, Frame(0x82, [status])) ==> Enabled(s, PeerKeepalive(fragments, status))
    ensures IsFraming(fragments, frame) && |frame.data| <= 65535
            && (frame.status == s.requests[|s.answers|].status || (frame.status == 0xbf && |frame.data| == 1)) ==>
              Enabled(s, PeerAnswer(frame, fragments))
  {}

  /** What a whole frame means to a waiting command, status by status. */
  lemma FrameMeaning(r: Reader, fragments: seq<bytes>, frame: Frame)
    requires r.Live? && !r.assembly.assembling && r.command in {0x81, 0x83} && IsFraming(fragments, frame)
    ensures var e := ReceiveAll(r, fragments);
            && (frame.status == 0x82 && |frame.data| == 1 ==> e.Live? && e.command == r.command && !e.assembly.assembling)
            && (frame.status == 0x82 && |frame.data| != 1 ==> e == Finished(InvalidFrame))
            && (frame.status == 0xbf && |frame.data| == 1 ==> e == Finished(ErrorResponse(frame.data[0])))
            && (frame.status == 0xbf && |frame.data| != 1 ==> e == Finished(InvalidFrame))
            && (frame.status == r.command ==> e == Finished(Answered(frame)))
            && (frame.status !in {0x82, 0xbf, r.command} ==> e == Finished(UnexpectedStatus))
  {
    ReceiveFrame(r, fragments, frame);
  }

  /** A fragment that does not fit ends the read. */
  lemma MisfitEndsRead(r: Reader, fragment: bytes)
    requires r.Live?
    ensures Receive(r, fragment) == Finished(InvalidFrame) <==>
            Add(r.assembly, fragment).1.Failure?
            || (var out := Add(r.assembly, fragment).1.value;
                out.Some? && out.value.status in {0x82, 0xbf} && |out.value.data| != 1)
  {}

  /** activeMSG is set exactly while a CBOR command is at work. */
  predicate ActiveInvariant(s: System) {
    match s.op
    case NoOp => !s.activeMSG
    case Closing => true
    case _ => s.activeMSG <==> s.op.call.command == 0x83
  }

  lemma CommandKeepsActive(s: System, e: Event)
    requires ActiveInvariant(s) && Enabled(s, e) && ByCommand(e)
    ensures ActiveInvariant(ApplyCommand(s, e))
  {
    if e.WriteFragment? {
      WriteKeepsActivity(s, RequestFragments(s, s.op.call)[s.op.done], e.write);
    } else if e.DrainWrite? {
      WriteKeepsActivity(s, CANCEL_FRAGMENT, e.write);
    }
  }

  lemma WriteKeepsActivity(s: System, fragment: bytes, w: WriteResult)
    ensures Write(s, fragment, w).activeMSG == s.activeMSG && Write(s, fragment, w).op == s.op
  {}

  lemma OthersKeepActive(s: System, e: Event)
    requires ActiveInvariant(s) && Enabled(s, e) && !ByCommand(e)
    ensures ActiveInvariant(Apply(s, e))
  {
    if e.CloserWrite? {
      WriteKeepsActivity(s, CANCEL_FRAGMENT, e.write);
    }
  }

  lemma {:induction false} RunKeepsActive(states: seq<System>, events: seq<Event>, i: nat)
    requires IsRun(states, events) && i < |states|
    ensures ActiveInvariant(states[i])
  {
    if i > 0 {
      RunKeepsActive(states, events, i - 1);
      if ByCommand(events[i - 1]) {
        CommandKeepsActive(states[i - 1], events[i - 1]);
      } else {
        OthersKeepActive(states[i - 1], events[i - 1]);
      }
    }
  }

  /** A Close that begins while a CBOR command is at work goes for the write gate to send CANCEL; while
      a Ping is, or nothing is, it closes at once. */
  lemma CloseCancelsActiveCommand(states: seq<System>, events: seq<Event>, i: nat)
    requires IsRun(states, events) && i < |events| && events[i].CloserBegin? && !states[i].op.Closing?
    ensures states[i + 1].closer ==
            if !states[i].op.NoOp? && states[i].op.call.command == 0x83 then CloserReady else Marking
  {
    RunKeepsActive(states, events, i);
  }

  lemma CloserWrites(s: System)
    requires s.closer.CloserWriting? && s.sessions != []
    ensures var t := Apply(s, CloserWrite(Ok));
            t.closer.Marking? && !t.gate && t.op == s.op && t.log == s.log + [[0xbe, 0, 0]]
  {
    WriteLogs(s, CANCEL_FRAGMENT, Ok);
    WriteTouches(s, CANCEL_FRAGMENT, Ok);
  }

  lemma DrainWrites(s: System)
    requires s.op.DrainWriting? && s.sessions != [] && !s.closer.Done?
    ensures var t := Apply(s, DrainWrite(Ok));
            && t.op == Draining(s.op.call) && !t.gate && t.closer == s.closer && t.returned == s.returned
            && t.reader == s.reader && t.log == s.log + [[0xbe, 0, 0]]
  {
    WriteLogs(s, CANCEL_FRAGMENT, Ok);
    WriteTouches(s, CANCEL_FRAGMENT, Ok);
  }

  /** Having the gate, Close sends one CANCEL and gives the gate back before it closes anything. */
  lemma CloseSendsCancel(s: System) returns (events: seq<Event>, t: System)
    requires s.closer.CloserReady? && !s.gate
    ensures Leads(s, events, t) && events == [CloserAcquire, CloserWrite(Ok)]
    ensures t.closer.Marking? && !t.gate && t.op == s.op && t.log == s.log + [[0xbe, 0, 0]]
  {
    var writing := Apply(s, CloserAcquire);
    CloserWrites(writing);
    t := Apply(writing, CloserWrite(Ok));
    events := [CloserAcquire, CloserWrite(Ok)];
    Lead(writing, CloserWrite(Ok), [], t);
    Lead(s, CloserAcquire, [CloserWrite(Ok)], t);
  }

  lemma Lead(s: System, e: Event, rest: seq<Event>, t: System)
    requires Enabled(s, e) && Leads(Apply(s, e), rest, t)
    ensures Leads(s, [e] + rest, t)
  {
    assert ([e] + rest)[1..] == rest;
  }

  /** Canceling a CBOR command whose answer comes in time costs one CANCEL on the wire: the answer is
      drained, the lock is free again and the transport is as open as before. */
  lemma CanceledIsDrained(s: System) returns (events: seq<Event>, t: System)
    requires s.op.Exchanging? && s.op.call.command == 0x83 && !s.gate && !s.closer.Done?
    requires s.reader.Finished? && s.reader.outcome != ReadFailed
    ensures Leads(s, events, t) && events == [ContextDone, DrainAcquire, DrainWrite(Ok), DrainResult]
    ensures t.op.NoOp? && t.reader == NoReader && !t.gate && t.closer == s.closer && t.returned == s.returned
    ensures t.log == s.log + [[0xbe, 0, 0]]
  {
    var ready := Apply(s, ContextDone);
    var writing := Apply(ready, DrainAcquire);
    var draining := Apply(writing, DrainWrite(Ok));
    DrainWrites(writing);
    t := Apply(draining, DrainResult);
    events := [ContextDone, DrainAcquire, DrainWrite(Ok), DrainResult];
    CanceledReturns(draining);
    Lead(draining, DrainResult, [], t);
    Lead(writing, DrainWrite(Ok), [DrainResult], t);
    Lead(ready, DrainAcquire, [DrainWrite(Ok), DrainResult], t);
    Lead(s, ContextDone, [DrainAcquire, DrainWrite(Ok), DrainResult], t);
  }

  lemma CanceledReturns(s: System)
    requires s.op.Draining? && s.reader.Finished? && s.reader.outcome != ReadFailed
    ensures var t := Apply(s, DrainResult);
            t == s.(op := NoOp, reader := NoReader, activeMSG := false)
  {}

  /** What is never drained ends in Close: a Ping whose context ends, a drain whose CANCEL is not written
      or whose answer does not come in time, a request that is not written, and a read that fails. */
  lemma UndrainedCloses(states: seq<System>, events: seq<Event>, i: nat)
    requires IsRun(states, events) && i < |events|
    requires var s, e := states[i], events[i];
             || (e.ContextDone? && s.op.call.command == 0x81)
             || e.DrainTimeout? || e.DrainGateTimeout? || e.GateCanceled?
             || (e.DrainWrite? && !e.write.Ok?) || (e.WriteFragment? && !e.write.Ok?)
             || ((e.TakeResult? || e.DrainResult?) && s.reader.outcome == ReadFailed)
    ensures states[i + 1].op.Closing?
  {}

  /** A command that closes the transport comes back only when Close has returned, and Close is final. */
  lemma {:induction false} ClosingEndsClosed(states: seq<System>, events: seq<Event>, i: nat, j: nat)
    requires IsRun(states, events) && i <= j < |states| && states[i].op.Closing?
    ensures states[j].op.Closing? || states[j].closer.Done?
    decreases j
  {
    if i < j {
      ClosingEndsClosed(states, events, i, j - 1);
      StepKeepsClosing(states[j - 1], events[j - 1]);
    }
  }

  lemma StepKeepsClosing(s: System, e: Event)
    requires Enabled(s, e) && (s.op.Closing? || s.closer.Done?)
    ensures Apply(s, e).op.Closing? || Apply(s, e).closer.Done?
  {
    if e.WriteFragment? {
      WriteTouches(s, RequestFragments(s, s.op.call)[s.op.done], e.write);
    } else if e.DrainWrite? || e.CloserWrite? {
      WriteTouches(s, CANCEL_FRAGMENT, e.write);
    }
  }

  /** A command that comes back from Close returns no answer, and a reader it leaves behind goes on taking
      notifications for nobody. */
  lemma ClosedCommandLeavesReader(states: seq<System>, events: seq<Event>, i: nat)
    requires IsRun(states, events) && i < |events| && events[i].CloseReturns?
    ensures var s, t := states[i], states[i + 1];
            && t.op.NoOp? && t.reader == NoReader && t.returned == s.returned && s.closer.Done? && t.closer == s.closer
            && (s.reader.Live? ==> t.orphans == s.orphans + 1) && (!s.reader.Live? ==> t.orphans == s.orphans)
  {}

  /** After ERR_BUSY the same request goes out again: the wait, the gate, and the first of its fragments. */
  lemma BusySendsAgain(s: System) returns (events: seq<Event>, t: System)
    requires s.op.Backoff? && !s.gate
    ensures Leads(s, events, t) && events == [RetryTimer, AcquireGate]
    ensures t.op == Writing(s.op.call, 0) && t.gate && t.sessions == s.sessions + [Session(RequestFragments(s, s.op.call), 0, false)]
  {
    var ready := Apply(s, RetryTimer);
    t := Apply(ready, AcquireGate);
    events := [RetryTimer, AcquireGate];
    Lead(ready, AcquireGate, [], t);
    Lead(s, RetryTimer, [AcquireGate], t);
  }

  /** The latest request was number n; the command is past writing another one unless n was answered
      with ERR_BUSY. */
  predicate SentLast(s: System, n: nat) {
    && s.sent == n
    && (s.op.Ready? || s.op.Writing? || s.op.Backoff? ==> 0 < n <= |s.answers| && s.answers[n - 1] == Frame(0xbf, [0x06]))
  }

  lemma TakeKeepsSentLast(s: System, n: nat)
    requires PairingInvariant(s) && SentLast(s, n) && Enabled(s, TakeResult)
    ensures SentLast(Apply(s, TakeResult), n)
  {
    if s.reader.outcome != ReadFailed {
      ResultIsAnswer(s);
      TakenResult(s);
    }
  }

  lemma WriteKeepsSentLast(s: System, e: Event, n: nat)
    requires SentLast(s, n) && Enabled(s, e) && (e.WriteFragment? || e.DrainWrite? || e.CloserWrite?)
    ensures SentLast(Apply(s, e), n)
  {
    WriteTouches(s, if e.WriteFragment? then RequestFragments(s, s.op.call)[s.op.done] else CANCEL_FRAGMENT, e.write);
  }

  lemma CommandKeepsSentLast(s: System, e: Event, n: nat)
    requires SentLast(s, n) && Enabled(s, e) && ByCommand(e)
    requires !e.Start? && !e.RequestWritten? && !e.TakeResult? && !e.WriteFragment? && !e.DrainWrite?
    ensures SentLast(ApplyCommand(s, e), n)
  {}

  lemma OthersKeepSentLast(s: System, e: Event, n: nat)
    requires SentLast(s, n) && Enabled(s, e) && !ByCommand(e) && !e.CloserWrite?
    ensures SentLast(Apply(s, e), n)
  {}

  lemma StepKeepsSentLast(s: System, e: Event, n: nat)
    requires PairingInvariant(s) && SentLast(s, n) && Enabled(s, e) && !e.Start? && !e.RequestWritten?
    ensures SentLast(Apply(s, e), n)
  {
    if e.TakeResult? {
      TakeKeepsSentLast(s, n);
    } else if e.WriteFragment? || e.DrainWrite? || e.CloserWrite? {
      WriteKeepsSentLast(s, e, n);
    } else if ByCommand(e) {
      CommandKeepsSentLast(s, e, n);
    } else {
      OthersKeepSentLast(s, e, n);
    }
  }

  lemma {:induction false} SentLastStays(states: seq<System>, events: seq<Event>, i: nat, j: nat)
    requires IsRun(states, events) && i < j < |states| && events[i].RequestWritten?
    requires forall k :: i < k < j ==> !events[k].Start? && !events[k].RequestWritten?
    ensures SentLast(states[j], states[i].sent + 1)
    decreases j
  {
    if i + 1 < j {
      SentLastStays(states, events, i, j - 1);
      RunKeepsInvariant(states, events, j - 1);
      StepKeepsSentLast(states[j - 1], events[j - 1], states[i].sent + 1);
    }
  }

  /** Between one Start and the command's return a further request is sent only after the one before it
      was answered with ERR_BUSY. */
  lemma ResendsOnlyWhenBusy(states: seq<System>, events: seq<Event>, i: nat, j: nat)
    requires IsRun(states, events) && i < j < |events| && events[i].RequestWritten? && events[j].RequestWritten?
    requires forall k :: i < k < j ==> !events[k].Start? && !events[k].RequestWritten?
    ensures var n := states[i].sent;
            n < |states[j].answers| && states[j].answers[n] == Frame(0xbf, [0x06])
    ensures states[i + 1].sent == states[i].sent + 1 == states[j].sent
  {
    SentLastStays(states, events, i, j);
    SentLastStays(states, events, i, i + 1);
  }
}
