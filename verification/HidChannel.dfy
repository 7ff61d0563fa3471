/** One CTAPHID channel on a shared endpoint (transport/ctaphid/channel_device.go) and the
    response loop that reads from it (transport/ctaphid/commands.go). */
module HidChannel {
  import opened Bytes
  import opened HidFraming

  const CTAPHID_CBOR := 0x10
  const CTAPHID_ERROR := 0x3f
  const CTAPHID_KEEPALIVE := 0x3b

  /** Why the report source, or the caller's context, ended. */
  datatype Fault = DeviceFault(code: int) | ReaderCanceled | ClosedPipe | ContextDone

  /** The error finish keeps: a reader canceled by Close reports the close. */
  function KeptFault(fault: Fault, closedByUser: bool): Fault {
    if fault.ReaderCanceled? && closedByUser then ClosedPipe else fault
  }

  // --------------------------------------------------- state guarded by the mutex

  datatype Shared = Shared(cid: ChannelID, pending: seq<Report>, readErr: Option<Fault>, wake: bool)

  /** enqueue: the next state and whether the report was for this channel. */
  function Enqueued(s: Shared, report: Report): (Shared, bool) {
    if report[..4] != s.cid then (s, false)
    else (s.(pending := s.pending + [report]), true)
  }

  datatype Next = Report(report: Report) | Fault(fault: Fault) | Nothing

  function NextOf(s: Shared): (Shared, Next) {
    if s.pending == [] then (s, if s.readErr.Some? then Next.Fault(s.readErr.value) else Nothing)
    else (s.(pending := s.pending[1..]), Next.Report(s.pending[0]))
  }

  function Rebound(s: Shared, cid: ChannelID): Shared {
    s.(cid := cid, pending := [])
  }

  /** channelDevice's fields and the operations on them; `wake` is the one-slot channel. */
  class ChannelDevice {
    var cid: ChannelID
    var pending: seq<Report>
    var readErr: Option<Fault>
    var wake: bool

    constructor (cid: ChannelID)
      ensures State() == Shared(cid, [], None, false)
    {
      this.cid, pending, readErr, wake := cid, [], None, false;
    }

    function State(): Shared
      reads this
    {
      Shared(cid, pending, readErr, wake)
    }

    method Enqueue(report: Report) returns (accepted: bool)
      modifies this`pending
      ensures (State(), accepted) == Enqueued(old(State()), report)
    {
      var reportCID: ChannelID := report[..4];
      if reportCID != cid {
        return false;
      }
      pending := pending + [report];
      return true;
    }

    method NextReport() returns (next: Next)
      modifies this`pending
      ensures (State(), next) == NextOf(old(State()))
    {
      if |pending| == 0 {
        if readErr.Some? {
          return Next.Fault(readErr.value);
        }
        return Nothing;
      }
      next := Next.Report(pending[0]);
      pending := pending[1..];
    }

    method SetCID(cid: ChannelID)
      modifies this`cid, this`pending
      ensures State() == Rebound(old(State()), cid)
    {
      this.cid := cid;
      pending := [];
    }

    method Finish(fault: Fault, closedByUser: bool)
      modifies this`readErr, this`wake
      ensures State() == old(State()).(readErr := Some(KeptFault(fault, closedByUser)), wake := true)
      ensures readErr == Some(if fault == ReaderCanceled && closedByUser then ClosedPipe else fault)
    {
      var kept := fault;
      if fault.ReaderCanceled? && closedByUser {
        kept := ClosedPipe;
      }
      readErr := Some(kept);
      Notify();
    }

    method Notify()
      modifies this`wake
      ensures State() == old(State()).(wake := true)
    {
      if !wake {
        wake := true;
      }
    }
  }

  // -------------------------------------------------------- readCBORResponse

  datatype Outcome =
    | Response(data: bytes)
    | CtapError(status: byte)
    | HidErrorResponse(code: byte)
    | UnexpectedCommand
    | Malformed
    | ReadFault(fault: Fault)

  /** What one whole message means to the waiting command; None means skip it. */
  function Answer(m: Message, cid: ChannelID): Option<Outcome>
  {
    if m == [] then Some(Malformed)
    else if m[0].cid != cid || m[0].command == CTAPHID_KEEPALIVE then None
    else if m[0].command == CTAPHID_ERROR then
      Some(if m[0].data == [] then Malformed else HidErrorResponse(m[0].data[0]))
    else if m[0].command != CTAPHID_CBOR then Some(UnexpectedCommand)
    else if m[0].data == [] || PayloadOf(m) == [] then Some(Malformed)
    else if PayloadOf(m)[0] != 0 then Some(CtapError(PayloadOf(m)[0]))
    else Some(Response(PayloadOf(m)[1..]))
  }

  lemma {:induction false} ConsumesPackets(d: Decoder, input: bytes)
    ensures |DecodeStream(d, input).1| <= |input|
    ensures d.Waiting? && DecodeStream(d, input).0.Complete? ==> |DecodeStream(d, input).1| < |input|
    decreases |input|
  {
    if !d.Complete? && !d.Broken? && |input| >= PACKET_SIZE {
      ConsumesPackets(Feed(d, input[..PACKET_SIZE]), input[PACKET_SIZE..]);
    }
  }

  /** readCBORResponse on a byte stream: the outcome, or None when the stream ends first. */
  function ResponseFrom(cid: ChannelID, input: bytes): (Option<Outcome>, bytes)
    decreases |input|
  {
    ConsumesPackets(Waiting, input);
    var (d, rest) := DecodeStream(Waiting, input);
    match d
    case Complete(m) =>
      var answer := Answer(m, cid);
      if answer.Some? then (answer, rest) else ResponseFrom(cid, rest)
    case Broken => (Some(Malformed), rest)
    case _ => (None, rest)
  }

  method ReadCBORResponse(reader: ByteReader, cid: ChannelID) returns (r: Option<Outcome>)
    modifies reader
    ensures r == ResponseFrom(cid, old(reader.input)).0
    ensures r.Some? ==> reader.input == ResponseFrom(cid, old(reader.input)).1
  {
    while true
      invariant ResponseFrom(cid, reader.input) == ResponseFrom(cid, old(reader.input))
      decreases |reader.input|
    {
      ConsumesPackets(Waiting, reader.input);
      var m, read := ReadFrom(reader);
      if read == Failure(ReadFailed) {
        return None;
      }
      if read.Failure? {
        return Some(Malformed);
      }
      if |m| < 1 {
        return Some(Malformed);
      }
      var first := m[0];
      if first.cid != cid {
        continue;
      }
      if first.command == CTAPHID_KEEPALIVE {
        continue;
      }
      if first.command == CTAPHID_ERROR {
        return Some(if |first.data| < 1 then Malformed else HidErrorResponse(first.data[0]));
      }
      if first.command != CTAPHID_CBOR {
        return Some(UnexpectedCommand);
      }
      if |first.data| < 1 {
        return Some(Malformed);
      }
      var data := Payload(m);
      if |data| < 1 {
        return Some(Malformed);
      }
      return Some(if data[0] != 0 then CtapError(data[0]) else Response(data[1..]));
    }
  }

  // ------------------------------------ the same loop, one report at a time

  datatype Reader = Idle | Reading(decoder: Decoder) | Returned(outcome: Outcome)

  function Take(r: Reader, cid: ChannelID, report: Report): Reader {
    if !r.Reading? then r
    else
      var d := Feed(r.decoder, report);
      match d
      case Complete(m) =>
        var answer := Answer(m, cid);
        if answer.Some? then Returned(answer.value) else Reading(Waiting)
      case Broken => Returned(Malformed)
      case _ => Reading(d)
  }

  function TakeAll(r: Reader, cid: ChannelID, reports: seq<Report>): Reader
    decreases |reports|
  {
    if reports == [] then r else TakeAll(Take(r, cid, reports[0]), cid, reports[1..])
  }

  lemma {:induction false} TakeSnoc(r: Reader, cid: ChannelID, reports: seq<Report>, report: Report)
    ensures TakeAll(r, cid, reports + [report]) == Take(TakeAll(r, cid, reports), cid, report)
    decreases |reports|
  {
    if reports == [] {
      assert reports + [report] == [report];
    } else {
      assert (reports + [report])[1..] == reports[1..] + [report];
      TakeSnoc(Take(r, cid, reports[0]), cid, reports[1..], report);
    }
  }

  // ----------------------------------------- producer and consumer, step by step

  /** readReports: where its goroutine stands. */
  datatype Producer =
    | AwaitingReport
    | Holding(report: Report)
    | Waking
    | Failing(fault: Fault)
    | WakingLast
    | Stopped

  /** Read: outside, about to look at the queue, or blocked in select. */
  datatype Consumer = Outside | Checking | Blocked

  /** `filtered` and `delivered` count from the last setCID; `mark` is where the current
      response loop began within `delivered`. */
  datatype System = System(
    shared: Shared,
    producer: Producer,
    consumer: Consumer,
    reader: Reader,
    filtered: seq<Report>,
    delivered: seq<Report>,
    mark: nat)

  datatype Event =
    | Arrive(report: Report)
    | ArriveFault(fault: Fault)
    | DoEnqueue
    | DoNotify
    | DoFinish(closedByUser: bool)
    | DoNotifyLast
    | DoSetCID(cid: ChannelID)
    | StartResponse
    | CallRead
    | DoNextReport
    | ReceiveWake
    | CancelRead

  predicate Enabled(s: System, e: Event) {
    match e
    case Arrive(_) => s.producer.AwaitingReport?
    case ArriveFault(f) => s.producer.AwaitingReport?
    case DoEnqueue => s.producer.Holding?
    case DoNotify => s.producer.Waking?
    case DoFinish(_) => s.producer.Failing?
    case DoNotifyLast => s.producer.WakingLast?
    case DoSetCID(_) => s.consumer.Outside? && !s.reader.Reading?
    case StartResponse => s.consumer.Outside? && !s.reader.Reading?
    case CallRead => s.consumer.Outside? && s.reader.Reading?
    case DoNextReport => s.consumer.Checking?
    case ReceiveWake => s.consumer.Blocked? && s.shared.wake
    case CancelRead => s.consumer.Blocked?
  }

  function Apply(s: System, e: Event): System
    requires Enabled(s, e)
  {
    match e
    case Arrive(report) => s.(producer := Holding(report))
    case ArriveFault(fault) => s.(producer := Failing(fault))
    case DoEnqueue =>
      var (shared, accepted) := Enqueued(s.shared, s.producer.report);
      if accepted then s.(shared := shared, producer := Waking, filtered := s.filtered + [s.producer.report])
      else s.(producer := AwaitingReport)
    case DoNotify => s.(shared := s.shared.(wake := true), producer := AwaitingReport)
    case DoFinish(closedByUser) =>
      s.(shared := s.shared.(readErr := Some(KeptFault(s.producer.fault, closedByUser))), producer := WakingLast)
    case DoNotifyLast => s.(shared := s.shared.(wake := true), producer := Stopped)
    case DoSetCID(cid) => s.(shared := Rebound(s.shared, cid), reader := Idle, filtered := [], delivered := [], mark := 0)
    case StartResponse => s.(reader := Reading(Waiting), mark := |s.delivered|)
    case CallRead => s.(consumer := Checking)
    case DoNextReport =>
      var (shared, next) := NextOf(s.shared);
      (match next
       case Report(report) =>
         s.(shared := shared, consumer := Outside, delivered := s.delivered + [report],
            reader := Take(s.reader, s.shared.cid, report))
       case Fault(fault) => s.(consumer := Outside, reader := Returned(ReadFault(fault)))
       case Nothing => s.(consumer := Blocked))
    case ReceiveWake => s.(shared := s.shared.(wake := false), consumer := Checking)
    case CancelRead => s.(consumer := Outside, reader := Returned(ReadFault(ContextDone)))
  }

  ghost predicate Initial(s: System) {
    exists cid: ChannelID :: s == System(Shared(cid, [], None, false), AwaitingReport, Outside, Idle, [], [], 0)
  }

  /** Each side goes on by itself: a posted token frees the producer for the next report or, after an
      error, ends it; a reader takes one token for one look at the queue; a read given up ends the
      response loop with the context's error and takes nothing, not even the token. */
  lemma StepsGoOn(s: System, e: Event)
    requires Enabled(s, e)
    ensures e.DoNotify? ==> Apply(s, e).producer == AwaitingReport && Apply(s, e).shared == s.shared.(wake := true)
    ensures e.DoNotifyLast? ==> Apply(s, e).producer == Stopped && Apply(s, e).shared == s.shared.(wake := true)
    ensures e.ReceiveWake? ==> Apply(s, e).consumer == Checking && Apply(s, e).shared == s.shared.(wake := false)
    ensures e.CancelRead? ==> Apply(s, e) == s.(consumer := Outside, reader := Returned(ReadFault(ContextDone)))
  {}

  /** Nothing is ruled out: reports and errors come whenever the producer waits for them, a context ends
      and a blocked reader with a token wakes whenever it is blocked, and a loop that reads can read. */
  lemma NothingIsRuledOut(s: System, report: Report, fault: Fault, closedByUser: bool, cid: ChannelID)
    ensures s.producer == AwaitingReport ==> Enabled(s, Arrive(report)) && Enabled(s, ArriveFault(fault))
    ensures match s.producer
            case AwaitingReport => true
            case Holding(_) => Enabled(s, DoEnqueue)
            case Waking => Enabled(s, DoNotify)
            case Failing(_) => Enabled(s, DoFinish(closedByUser))
            case WakingLast => Enabled(s, DoNotifyLast)
            case Stopped => true
    ensures match s.consumer
            case Outside => if s.reader.Reading? then Enabled(s, CallRead) else Enabled(s, StartResponse) && Enabled(s, DoSetCID(cid))
            case Checking => Enabled(s, DoNextReport)
            case Blocked => Enabled(s, CancelRead) && (s.shared.wake ==> Enabled(s, ReceiveWake))
  {}

  /** Any schedule of any length. */
  ghost predicate IsRun(states: seq<System>, events: seq<Event>) {
    && |states| == |events| + 1
    && Initial(states[0])
    && forall i :: 0 <= i < |events| ==> Enabled(states[i], events[i]) && states[i + 1] == Apply(states[i], events[i])
  }

  predicate Available(s: Shared) {
    s.pending != [] || s.readErr.Some?
  }

  /** A blocked reader with something to read has, or is about to be given, a wake token. */
  predicate NoLostWakeup(s: System) {
    s.consumer.Blocked? && Available(s.shared) ==>
      s.shared.wake || s.producer.Waking? || s.producer.WakingLast?
  }

  predicate Conserved(s: System) {
    s.delivered + s.shared.pending == s.filtered
  }

  predicate FaultIsLast(s: System) {
    && (s.shared.readErr.Some? <==> s.producer.WakingLast? || s.producer.Stopped?)
    && (s.reader.Returned? && s.reader.outcome.ReadFault? && s.reader.outcome.fault != ContextDone ==>
          s.producer.WakingLast? || s.producer.Stopped?)
  }

  /** The response loop has folded exactly what was delivered to it, and stopped at once. */
  predicate ReaderFollows(s: System) {
    && s.mark <= |s.delivered|
    && (s.consumer.Checking? || s.consumer.Blocked? ==> s.reader.Reading?)
    && var mine := s.delivered[s.mark..];
       && (s.reader.Reading? ==> TakeAll(Reading(Waiting), s.shared.cid, mine) == s.reader)
       && (s.reader.Returned? && !s.reader.outcome.ReadFault? ==>
             && mine != [] && TakeAll(Reading(Waiting), s.shared.cid, mine) == s.reader
             && TakeAll(Reading(Waiting), s.shared.cid, mine[..|mine| - 1]).Reading?)
  }

  predicate Invariant(s: System) {
    NoLostWakeup(s) && Conserved(s) && FaultIsLast(s) && ReaderFollows(s)
  }

  lemma StepKeepsQueue(s: System, e: Event)
    requires NoLostWakeup(s) && Conserved(s) && FaultIsLast(s) && Enabled(s, e)
    ensures NoLostWakeup(Apply(s, e)) && Conserved(Apply(s, e)) && FaultIsLast(Apply(s, e))
  {
    if e.DoNextReport? && s.shared.pending != [] {
      assert s.shared.pending == [s.shared.pending[0]] + s.shared.pending[1..];
    }
  }

  lemma DeliveryKeepsReader(s: System)
    requires ReaderFollows(s) && s.consumer.Checking? && s.shared.pending != []
    ensures ReaderFollows(Apply(s, DoNextReport))
  {
    var t := Apply(s, DoNextReport);
    var report := s.shared.pending[0];
    var mine := s.delivered[s.mark..];
    assert t.delivered[t.mark..] == mine + [report];
    TakeSnoc(Reading(Waiting), s.shared.cid, mine, report);
    assert (mine + [report])[..|mine|] == mine;
  }

  lemma StepKeepsReader(s: System, e: Event)
    requires ReaderFollows(s) && Enabled(s, e)
    ensures ReaderFollows(Apply(s, e))
  {
    if e.DoNextReport? && s.shared.pending != [] {
      DeliveryKeepsReader(s);
    } else if e.StartResponse? {
      assert s.delivered[|s.delivered|..] == [];
    }
  }

  lemma StepKeepsInvariant(s: System, e: Event)
    requires Invariant(s) && Enabled(s, e)
    ensures Invariant(Apply(s, e))
  {
    StepKeepsQueue(s, e);
    StepKeepsReader(s, e);
  }

  /** In every state of every run: no lost wake-up, delivered and pending reports are exactly the
      filtered input in order, and a device fault is reported only after all of it. */
  lemma {:induction false} RunKeepsInvariant(states: seq<System>, events: seq<Event>, i: nat)
    requires IsRun(states, events) && i < |states|
    ensures Invariant(states[i])
  {
    if i > 0 {
      RunKeepsInvariant(states, events, i - 1);
      StepKeepsInvariant(states[i - 1], events[i - 1]);
    }
  }

  /** A read that returns the device's fault has delivered every report there will ever be. */
  lemma FaultAfterEveryReport(states: seq<System>, events: seq<Event>, i: nat, j: nat)
    requires IsRun(states, events) && i < |events| && i < j < |states|
    requires events[i].DoNextReport? && NextOf(states[i].shared).1.Fault?
    requires forall k :: i <= k < j ==> !events[k].DoSetCID?
    ensures states[j].filtered == states[i].delivered == states[i].filtered
  {
    RunKeepsInvariant(states, events, i);
    NothingAfterFault(states, events, i, j);
  }

  lemma {:induction false} NothingAfterFault(states: seq<System>, events: seq<Event>, i: nat, j: nat)
    requires IsRun(states, events) && i <= j < |states|
    requires states[i].producer.WakingLast? || states[i].producer.Stopped?
    requires forall k :: i <= k < j ==> !events[k].DoSetCID?
    ensures states[j].producer.WakingLast? || states[j].producer.Stopped?
    ensures states[j].filtered == states[i].filtered
    decreases j
  {
    if i < j {
      NothingAfterFault(states, events, i, j - 1);
    }
  }

  /** The token that the invariant promises is enough: the producer's own next step, if the token
      is not there yet, then a wake and a look at the queue, and the read returns. */
  lemma BlockedReadReturns(s: System) returns (events: seq<Event>, t: System)
    requires Invariant(s) && s.consumer.Blocked? && Available(s.shared)
    ensures 2 <= |events| <= 3 && forall e :: e in events ==> e in {DoNotify, DoNotifyLast, ReceiveWake, DoNextReport}
    ensures Leads(s, events, t) && t.consumer.Outside?
    ensures s.shared.pending != [] ==> t.delivered == s.delivered + [s.shared.pending[0]]
    ensures s.shared.pending == [] ==> t.reader == Returned(ReadFault(s.shared.readErr.value))
  {
    var awake := s;
    events := [];
    if !s.shared.wake {
      events := [if s.producer.Waking? then DoNotify else DoNotifyLast];
      awake := Apply(s, events[0]);
    }
    var checking := Apply(awake, ReceiveWake);
    t := Apply(checking, DoNextReport);
    assert Leads(checking, [DoNextReport], t) by {
      assert [DoNextReport][1..] == [] && Leads(t, [], t);
    }
    assert [ReceiveWake, DoNextReport][1..] == [DoNextReport];
    assert Leads(awake, [ReceiveWake, DoNextReport], t);
    assert (events + [ReceiveWake, DoNextReport])[|events|..] == [ReceiveWake, DoNextReport];
    events := events + [ReceiveWake, DoNextReport];
  }

  ghost predicate Leads(s: System, events: seq<Event>, t: System)
    decreases |events|
  {
    if events == [] then s == t
    else Enabled(s, events[0]) && Leads(Apply(s, events[0]), events[1..], t)
  }

  // ------------------------------------------------------- demultiplexed decoding

  function AllPackets(contents: seq<Content>): Message {
    if contents == [] then [] else PacketsOf(contents[0]) + AllPackets(contents[1..])
  }

  predicate IsKeepalive(c: Content) {
    c.command == CTAPHID_KEEPALIVE
  }

  /** While the packets of one message arrive the loop reads on; the last one decides. */
  lemma {:induction false} TakeMessage(d: Decoder, cid: ChannelID, reports: seq<Report>, i: nat)
    requires !d.Complete? && !d.Broken?
    requires Decode(d, reports).0.Complete? && Decode(d, reports).1 == |reports|
    requires i <= |reports|
    ensures i < |reports| ==> TakeAll(Reading(d), cid, reports[..i]).Reading?
    ensures TakeAll(Reading(d), cid, reports) ==
            var answer := Answer(Decode(d, reports).0.message, cid);
            if answer.Some? then Returned(answer.value) else Reading(Waiting)
    decreases |reports|
  {
    var e := Feed(d, reports[0]);
    if e.Complete? {
      assert Decode(e, reports[1..]) == (e, 0) && reports[1..] == [];
    } else {
      assert !e.Broken?;
      TakeMessage(e, cid, reports[1..], if i == 0 then 0 else i - 1);
      if i > 0 {
        assert reports[..i][1..] == reports[1..][..i - 1];
      }
    }
  }

  lemma {:induction false} TakeSplit(r: Reader, cid: ChannelID, xs: seq<Report>, ys: seq<Report>)
    ensures TakeAll(r, cid, xs + ys) == TakeAll(TakeAll(r, cid, xs), cid, ys)
    decreases |xs|
  {
    if xs == [] {
      assert xs + ys == ys;
    } else {
      assert (xs + ys)[1..] == xs[1..] + ys;
      TakeSplit(Take(r, cid, xs[0]), cid, xs[1..], ys);
    }
  }

  /** What a message of our channel means to the waiting command, command by command. */
  ghost predicate Means(c: Content, outcome: Outcome) {
    && (c.command == 0x10 && c.data == [] ==> outcome == Malformed)
    && (c.command == 0x10 && c.data != [] ==>
          outcome == if c.data[0] == 0 then Response(c.data[1..]) else CtapError(c.data[0]))
    && (c.command == 0x3f && c.data == [] ==> outcome == Malformed)
    && (c.command == 0x3f && c.data != [] ==> outcome == HidErrorResponse(c.data[0]))
    && (c.command !in {0x10, 0x3f, 0x3b} ==> outcome == UnexpectedCommand)
  }

  /** Other channels' messages and keepalives are skipped; any other message is answered with its meaning. */
  lemma AnswerOfContent(c: Content, cid: ChannelID)
    requires Encodable(c)
    ensures Answer(PacketsOf(c), cid).None? <==> c.cid != cid || c.command == 0x3b
    ensures c.cid == cid && c.command != 0x3b ==> Means(c, Answer(PacketsOf(c), cid).value)
  {
    ContentRecovered(c);
    var first := PacketsOf(c)[0].data;
    assert first == c.data[..Min(|c.data|, INIT_DATA)];
    assert c.data != [] ==> first[0] == c.data[0];
  }

  /** `wire` carries keepalives and then one other message, all on `cid`. */
  ghost predicate CarriesResponse(wire: seq<Report>, cid: ChannelID, keepalives: seq<Content>, response: Content) {
    && (forall c :: c in keepalives ==> Encodable(c) && c.cid == cid && IsKeepalive(c))
    && Encodable(response) && response.cid == cid && !IsKeepalive(response)
    && CarriesAll(wire, AllPackets(keepalives) + PacketsOf(response))
  }

  lemma TakeContent(cid: ChannelID, c: Content, reports: seq<Report>, i: nat)
    requires Encodable(c) && c.cid == cid && CarriesAll(reports, PacketsOf(c)) && i <= |reports|
    ensures i < |reports| ==> TakeAll(Reading(Waiting), cid, reports[..i]).Reading?
    ensures TakeAll(Reading(Waiting), cid, reports) ==
            if IsKeepalive(c) then Reading(Waiting) else Returned(Answer(PacketsOf(c), cid).value)
  {
    assert reports[..|PacketsOf(c)|] == reports;
    DecoderComplete(c.cid, c.command, c.data, reports);
    TakeMessage(Waiting, cid, reports, i);
  }

  lemma TakePrepend(cid: ChannelID, head: seq<Report>, tail: seq<Report>, i: nat)
    requires TakeAll(Reading(Waiting), cid, head) == Reading(Waiting) && i <= |head + tail|
    requires i < |head| ==> TakeAll(Reading(Waiting), cid, head[..i]).Reading?
    requires |head| <= i < |head + tail| ==> TakeAll(Reading(Waiting), cid, tail[..i - |head|]).Reading?
    ensures TakeAll(Reading(Waiting), cid, head + tail) == TakeAll(Reading(Waiting), cid, tail)
    ensures i < |head + tail| ==> TakeAll(Reading(Waiting), cid, (head + tail)[..i]).Reading?
  {
    TakeSplit(Reading(Waiting), cid, head, tail);
    if i < |head| {
      assert (head + tail)[..i] == head[..i];
    } else {
      assert (head + tail)[..i] == head + tail[..i - |head|];
      TakeSplit(Reading(Waiting), cid, head, tail[..i - |head|]);
    }
  }

  /** The first keepalive, and the same again without it. */
  lemma FirstKeepalive(wire: seq<Report>, cid: ChannelID, keepalives: seq<Content>, response: Content)
    requires CarriesResponse(wire, cid, keepalives, response) && keepalives != []
    ensures var n := |PacketsOf(keepalives[0])|;
            && n <= |wire| && CarriesAll(wire[..n], PacketsOf(keepalives[0]))
            && CarriesResponse(wire[n..], cid, keepalives[1..], response)
            && Encodable(keepalives[0]) && keepalives[0].cid == cid && IsKeepalive(keepalives[0])
  {
    var first := PacketsOf(keepalives[0]);
    var rest := AllPackets(keepalives[1..]) + PacketsOf(response);
    Associate(first, AllPackets(keepalives[1..]), PacketsOf(response));
    CarriesSplit(wire, first, rest);
    assert keepalives[0] in keepalives;
  }

  lemma {:induction false} TakeResponse(wire: seq<Report>, cid: ChannelID, keepalives: seq<Content>, response: Content, i: nat)
    requires CarriesResponse(wire, cid, keepalives, response) && i <= |wire|
    ensures i < |wire| ==> TakeAll(Reading(Waiting), cid, wire[..i]).Reading?
    ensures TakeAll(Reading(Waiting), cid, wire) == Returned(Answer(PacketsOf(response), cid).value)
    decreases |keepalives|
  {
    if keepalives == [] {
      assert AllPackets(keepalives) + PacketsOf(response) == PacketsOf(response);
      TakeContent(cid, response, wire, i);
    } else {
      var n := |PacketsOf(keepalives[0])|;
      var head, tail := wire[..n], wire[n..];
      FirstKeepalive(wire, cid, keepalives, response);
      TakeContent(cid, keepalives[0], head, Min(i, n));
      TakeResponse(tail, cid, keepalives[1..], response, if i < n then 0 else i - n);
      assert wire == head + tail;
      TakePrepend(cid, head, tail, i);
    }
  }

  lemma CarriesSplit(wire: seq<Report>, first: Message, rest: Message)
    requires CarriesAll(wire, first + rest)
    ensures CarriesAll(wire[..|first|], first) && CarriesAll(wire[|first|..], rest)
  {
    forall i | 0 <= i < |first| ensures Carries(wire[..|first|][i], first[i]) {
      assert Carries(wire[i], (first + rest)[i]);
    }
    forall i | 0 <= i < |rest| ensures Carries(wire[|first|..][i], rest[i]) {
      assert Carries(wire[|first| + i], (first + rest)[|first| + i]);
    }
  }

  /** In every state of every run, as long as the reports on our channel since the response loop
      began are (so far) keepalives, a response and anything after it: the loop is still reading
      exactly while it has not been given the whole response, it then returns what that response
      means, and every later report is still pending, in order. */
  lemma DemultiplexedResponse(states: seq<System>, events: seq<Event>, i: nat,
                              wire: seq<Report>, keepalives: seq<Content>, response: Content)
    requires IsRun(states, events) && i < |states|
    requires states[i].reader.Reading? || (states[i].reader.Returned? && !states[i].reader.outcome.ReadFault?)
    requires CarriesResponse(wire, states[i].shared.cid, keepalives, response)
    requires states[i].mark <= |states[i].filtered|
    requires wire <= states[i].filtered[states[i].mark..] || states[i].filtered[states[i].mark..] <= wire
    ensures states[i].mark <= |states[i].delivered|
    ensures var s := states[i];
            var mine := s.delivered[s.mark..];
            && mine <= wire
            && (s.reader.Reading? <==> |mine| < |wire|)
            && (s.reader.Returned? ==>
                  && Means(response, s.reader.outcome)
                  && s.filtered[s.mark..] == wire + s.shared.pending)
  {
    RunKeepsInvariant(states, events, i);
    var s := states[i];
    var mine := s.delivered[s.mark..];
    assert s.filtered[s.mark..] == mine + s.shared.pending;
    NeverOverReads(s, mine, wire, keepalives, response);
    assert mine == wire[..|mine|];
    TakeResponse(wire, s.shared.cid, keepalives, response, |mine|);
    AnswerOfContent(response, s.shared.cid);
    if |mine| == |wire| {
      assert mine == wire;
    }
  }

  /** Past the response the loop has returned, so it asks for nothing more. */
  lemma NeverOverReads(s: System, mine: seq<Report>, wire: seq<Report>, keepalives: seq<Content>, response: Content)
    requires ReaderFollows(s) && mine == s.delivered[s.mark..]
    requires s.reader.Reading? || (s.reader.Returned? && !s.reader.outcome.ReadFault?)
    requires CarriesResponse(wire, s.shared.cid, keepalives, response)
    requires wire <= mine + s.shared.pending || mine + s.shared.pending <= wire
    ensures |mine| <= |wire|
  {
    if |mine| > |wire| {
      TakeResponse(wire, s.shared.cid, keepalives, response, |wire|);
      assert (mine + s.shared.pending)[..|wire|] == wire;
      var before := if s.reader.Reading? then mine else mine[..|mine| - 1];
      assert before[..|wire|] == wire;
      StaysReturned(s.shared.cid, before, |wire|);
      assert false;
    }
  }

  lemma {:induction false} StaysReturned(cid: ChannelID, reports: seq<Report>, n: nat)
    requires n <= |reports| && TakeAll(Reading(Waiting), cid, reports[..n]).Returned?
    ensures TakeAll(Reading(Waiting), cid, reports).Returned?
  {
    assert reports == reports[..n] + reports[n..];
    TakeSplit(Reading(Waiting), cid, reports[..n], reports[n..]);
    ReturnedIsFinal(TakeAll(Reading(Waiting), cid, reports[..n]), cid, reports[n..]);
  }

  lemma {:induction false} ReturnedIsFinal(r: Reader, cid: ChannelID, reports: seq<Report>)
    requires r.Returned?
    ensures TakeAll(r, cid, reports) == r
    decreases |reports|
  {
    if reports != [] {
      ReturnedIsFinal(r, cid, reports[1..]);
    }
  }

  predicate Skipped(c: Content, cid: ChannelID) {
    Encodable(c) && (c.cid != cid || c.command == 0x3b)
  }

  /** On a byte stream: behind any skipped messages the loop returns what the first other message of
      its channel means, and leaves what follows it. */
  lemma {:induction false} ResponseOnWire(cid: ChannelID, skipped: seq<Content>, response: Content, rest: bytes)
    requires forall c :: c in skipped ==> Skipped(c, cid)
    requires Encodable(response) && response.cid == cid && response.command != 0x3b
    ensures var (outcome, left) := ResponseFrom(cid, Wire(skipped + [response]) + rest);
            left == rest && outcome.Some? && Means(response, outcome.value)
    decreases |skipped|
  {
    if skipped == [] {
      assert skipped + [response] == [response] && [response][1..] == [];
      assert Wire([response]) == Flatten(Encodings(PacketsOf(response)));
      OneMessage(response, rest);
      AnswerOfContent(response, cid);
    } else {
      var first, later := skipped[0], Wire(skipped[1..] + [response]);
      assert (skipped + [response])[1..] == skipped[1..] + [response];
      assert first in skipped;
      OneMessage(first, later + rest);
      Associate(Flatten(Encodings(PacketsOf(first))), later, rest);
      AnswerOfContent(first, cid);
      ResponseOnWire(cid, skipped[1..], response, rest);
    }
  }

  // -------------------------------------------------- the filter, from the raw input

  function OfChannel(cid: ChannelID, events: seq<Event>): seq<Report> {
    if events == [] then []
    else OfChannel(cid, events[..|events| - 1]) + Arrived(cid, events[|events| - 1])
  }

  function Arrived(cid: ChannelID, e: Event): seq<Report> {
    if e.Arrive? && e.report[..4] == cid then [e.report] else []
  }

  function Held(s: System): seq<Report> {
    if s.producer.Holding? && s.producer.report[..4] == s.shared.cid then [s.producer.report] else []
  }

  lemma StepFilters(s: System, e: Event)
    requires Enabled(s, e) && !e.DoSetCID?
    ensures Apply(s, e).shared.cid == s.shared.cid
    ensures Apply(s, e).filtered + Held(Apply(s, e)) == s.filtered + Held(s) + Arrived(s.shared.cid, e)
  {}

  lemma OfChannelAppend(cid: ChannelID, events: seq<Event>, e: Event)
    ensures OfChannel(cid, events + [e]) == OfChannel(cid, events) + Arrived(cid, e)
  {
    assert (events + [e])[..|events|] == events;
  }

  lemma OfChannelSnoc(cid: ChannelID, events: seq<Event>, i: nat, j: nat)
    requires i < j <= |events|
    ensures OfChannel(cid, events[i..j]) == OfChannel(cid, events[i..j - 1]) + Arrived(cid, events[j - 1])
  {
    assert events[i..j] == events[i..j - 1] + [events[j - 1]];
    OfChannelAppend(cid, events[i..j - 1], events[j - 1]);
  }

  /** Between two setCID calls, the filtered input is the arrived reports of our channel, in order. */
  lemma {:induction false} FilteredIsArrived(states: seq<System>, events: seq<Event>, i: nat, j: nat)
    requires IsRun(states, events) && i <= j < |states|
    requires forall k :: i <= k < j ==> !events[k].DoSetCID?
    ensures states[j].shared.cid == states[i].shared.cid
    ensures states[j].filtered + Held(states[j])
         == states[i].filtered + Held(states[i]) + OfChannel(states[i].shared.cid, events[i..j])
    decreases j
  {
    if i < j {
      FilteredIsArrived(states, events, i, j - 1);
      StepFilters(states[j - 1], events[j - 1]);
      OfChannelSnoc(states[i].shared.cid, events, i, j);
      Associate(states[i].filtered + Held(states[i]), OfChannel(states[i].shared.cid, events[i..j - 1]),
                Arrived(states[i].shared.cid, events[j - 1]));
    }
  }

  /** From a setCID on, the filtered input is what arrived for the new channel, and nothing older but a
      report the producer was already holding. */
  lemma SinceSetCID(states: seq<System>, events: seq<Event>, i: nat, j: nat)
    requires IsRun(states, events) && i < j < |states| && events[i].DoSetCID?
    requires forall k :: i < k < j ==> !events[k].DoSetCID?
    ensures states[j].shared.cid == events[i].cid
    ensures states[j].filtered + Held(states[j]) == Held(states[i + 1]) + OfChannel(events[i].cid, events[i + 1..j])
  {
    FilteredIsArrived(states, events, i + 1, j);
    assert states[i + 1].filtered == [];
  }

  // ------------------------------------- the byte-stream loop is the same automaton

  lemma {:induction false} DecodeTakes(d: Decoder, cid: ChannelID, reports: seq<Report>)
    requires !d.Complete? && !d.Broken?
    ensures var (e, n) := Decode(d, reports);
            && Decode(d, reports[..n]) == (e, n)
            && TakeAll(Reading(d), cid, reports[..n]) ==
               (match e
                case Complete(m) => (if Answer(m, cid).Some? then Returned(Answer(m, cid).value) else Reading(Waiting))
                case Broken => Returned(Malformed)
                case _ => Reading(e))
            && (!e.Complete? && !e.Broken? ==> n == |reports|)
    decreases |reports|
  {
    if reports != [] {
      var f := Feed(d, reports[0]);
      var n := Decode(d, reports).1;
      assert reports[..n][1..] == reports[1..][..n - 1];
      if f.Complete? || f.Broken? {
        assert reports[..1] == [reports[0]];
      } else {
        DecodeTakes(f, cid, reports[1..]);
      }
    }
  }

  /** readCBORResponse on a byte stream returns what the report-by-report loop returns, and has
      taken the same reports. */
  lemma {:induction false} ResponseFromReports(cid: ChannelID, reports: seq<Report>, rest: bytes)
    requires TakeAll(Reading(Waiting), cid, reports).Returned?
    requires forall i :: 0 <= i < |reports| ==> TakeAll(Reading(Waiting), cid, reports[..i]).Reading?
    ensures ResponseFrom(cid, Flatten(reports) + rest)
         == (Some(TakeAll(Reading(Waiting), cid, reports).outcome), rest)
    decreases |reports|
  {
    DecodeTakes(Waiting, cid, reports);
    var (d, n) := Decode(Waiting, reports);
    var head, tail := reports[..n], reports[n..];
    assert reports == head + tail;
    if n == |reports| {
      assert head == reports;
    }
    FlattenAppend(head, tail);
    assert Flatten(reports) + rest == Flatten(head) + (Flatten(tail) + rest);
    StreamOfReports(Waiting, head, Flatten(tail) + rest);
    if n == |reports| {
      assert Flatten(tail) + rest == rest;
    }
    if d.Complete? && Answer(d.message, cid).None? {
      TakeSplit(Reading(Waiting), cid, head, tail);
      forall i | 0 <= i < |tail| ensures TakeAll(Reading(Waiting), cid, tail[..i]).Reading? {
        assert reports[..n + i] == head + tail[..i];
        TakeSplit(Reading(Waiting), cid, head, tail[..i]);
      }
      ResponseFromReports(cid, tail, rest);
    }
  }
}
