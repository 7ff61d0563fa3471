/** Choosing one of several authenticators (authenticator/select.go:11-91): who closes what. */
module Select {
  import opened Bytes

  /** A device transport; `initializes` and `closeFails` are how New and Close turn out on it. */
  datatype Transport = Transport(id: nat, initializes: bool, closeFails: bool)

  /** The calls of Close, in order. */
  class Ledger {
    var closed: seq<Transport>

    constructor ()
      ensures closed == []
    {
      closed := [];
    }

    method Close(t: Transport) returns (ok: bool)
      modifies this
      ensures closed == old(closed) + [t] && ok == !t.closeFails
    {
      closed := closed + [t];
      ok := !t.closeFails;
    }
  }

  /** What one step of the enumeration yields. */
  datatype Candidate = EnumerationError | Offered(transport: Transport)

  /** What one select statement of the caller picks: the cancellation, or the next result in the channel. */
  datatype Wait = Cancelled | Arrived(device: nat, ok: bool)

  datatype SelectError = NoAuthenticators | ContextDone | CloseFailed | NoneSelected

  function Offers(candidates: seq<Candidate>): seq<Transport> {
    if candidates == [] then []
    else (if candidates[0].Offered? then [candidates[0].transport] else []) + Offers(candidates[1..])
  }

  function Initialized(offers: seq<Transport>): seq<Transport> {
    if offers == [] then [] else (if offers[0].initializes then [offers[0]] else []) + Initialized(offers[1..])
  }

  ghost predicate NoRepeats(s: seq<Transport>) {
    forall i, j :: 0 <= i < j < |s| ==> s[i] != s[j]
  }

  /** The device whose selection succeeded, if that came before the cancellation and the last failure. */
  function Picked(waits: seq<Wait>, n: nat): Option<nat> {
    if n == 0 || waits == [] || waits[0].Cancelled? then None
    else if waits[0].ok then Some(waits[0].device)
    else Picked(waits[1..], n - 1)
  }

  predicate CancelledFirst(waits: seq<Wait>, n: nat) {
    n > 0 && waits != [] && (waits[0].Cancelled? || (!waits[0].ok && CancelledFirst(waits[1..], n - 1)))
  }

  predicate OthersClose(devices: seq<Transport>, except: nat) {
    forall i :: 0 <= i < |devices| && i != except ==> !devices[i].closeFails
  }

  predicate InRange(waits: seq<Wait>, n: nat) {
    |waits| >= n && forall i :: 0 <= i < |waits| && waits[i].Arrived? ==> waits[i].device < n
  }

  function Outcome(devices: seq<Transport>, waits: seq<Wait>): Result<Transport, SelectError>
    requires |devices| > 1 ==> InRange(waits, |devices|)
  {
    if |devices| == 0 then Failure(NoAuthenticators)
    else if |devices| == 1 then Success(devices[0])
    else
      match Picked(waits, |devices|)
      case None => Failure(if CancelledFirst(waits, |devices|) then ContextDone else NoneSelected)
      case Some(j) =>
        PickedInRange(waits, |devices|, |devices|);
        if OthersClose(devices, j) then Success(devices[j]) else Failure(CloseFailed)
  }

  lemma {:induction false} PickedInRange(waits: seq<Wait>, n: nat, bound: nat)
    requires forall i :: 0 <= i < |waits| && waits[i].Arrived? ==> waits[i].device < bound
    ensures Picked(waits, n).Some? ==> Picked(waits, n).value < bound
  {
    if n > 0 && waits != [] && waits[0].Arrived? && !waits[0].ok {
      PickedInRange(waits[1..], n - 1, bound);
    }
  }

  /** The first success, before any cancellation, is the one picked; without one, nothing is. */
  lemma {:induction false} PickedIsFirstSuccess(waits: seq<Wait>, n: nat, j: nat)
    ensures Picked(waits, n) == Some(j) <==>
            exists k :: 0 <= k < n && k < |waits| && waits[k] == Arrived(j, true)
                        && forall i :: 0 <= i < k ==> waits[i].Arrived? && !waits[i].ok
  {
    if n > 0 && waits != [] {
      var tail := waits[1..];
      if waits[0].Arrived? && !waits[0].ok {
        PickedIsFirstSuccess(tail, n - 1, j);
        if Picked(tail, n - 1) == Some(j) {
          var k :| 0 <= k < n - 1 && k < |tail| && tail[k] == Arrived(j, true)
                   && forall i :: 0 <= i < k ==> tail[i].Arrived? && !tail[i].ok;
          assert waits[k + 1] == Arrived(j, true);
          assert forall i :: 0 < i < k + 1 ==> waits[i] == tail[i - 1];
        }
        if k :| 0 <= k < n && k < |waits| && waits[k] == Arrived(j, true)
                && forall i :: 0 <= i < k ==> waits[i].Arrived? && !waits[i].ok {
          assert tail[k - 1] == Arrived(j, true);
          assert forall i :: 0 <= i < k - 1 ==> tail[i] == waits[i + 1];
        }
      }
    }
  }

  /** Before wait k there were only failed selections. */
  ghost predicate OnlyFailures(waits: seq<Wait>, k: int) {
    0 <= k <= |waits| && forall i :: 0 <= i < k ==> waits[i].Arrived? && !waits[i].ok
  }

  lemma {:induction false} CancelledExactly(waits: seq<Wait>, n: nat)
    ensures CancelledFirst(waits, n) <==>
            exists k :: 0 <= k < n && k < |waits| && waits[k] == Cancelled && OnlyFailures(waits, k)
  {
    if n > 0 && waits != [] {
      var tail := waits[1..];
      if waits[0].Cancelled? {
        assert OnlyFailures(waits, 0);
      } else if !waits[0].ok {
        CancelledExactly(tail, n - 1);
        if k :| 0 <= k < n - 1 && k < |tail| && tail[k] == Cancelled && OnlyFailures(tail, k) {
          assert waits[k + 1] == Cancelled;
          assert forall i :: 0 < i < k + 1 ==> waits[i] == tail[i - 1];
          assert OnlyFailures(waits, k + 1);
        }
        if k :| 0 <= k < n && k < |waits| && waits[k] == Cancelled && OnlyFailures(waits, k) {
          assert tail[k - 1] == Cancelled;
          assert forall i :: 0 <= i < k - 1 ==> tail[i] == waits[i + 1];
          assert OnlyFailures(tail, k - 1);
        }
      }
    }
  }

  /** What the caller gets, for each way the waits can go. */
  lemma OutcomeExact(devices: seq<Transport>, waits: seq<Wait>, k: nat)
    requires |devices| > 1 && InRange(waits, |devices|) && k <= |devices| && OnlyFailures(waits, k)
    ensures k == |devices| ==> Outcome(devices, waits) == Failure(NoneSelected)
    ensures k < |devices| && waits[k] == Cancelled ==> Outcome(devices, waits) == Failure(ContextDone)
    ensures k < |devices| && waits[k].Arrived? && waits[k].ok ==>
              var j := waits[k].device;
              Outcome(devices, waits) ==
                if exists i :: 0 <= i < |devices| && i != j && devices[i].closeFails then Failure(CloseFailed)
                else Success(devices[j])
  {
    CancelledExactly(waits, |devices|);
    if k < |devices| && waits[k].Arrived? && waits[k].ok {
      PickedIsFirstSuccess(waits, |devices|, waits[k].device);
      assert waits[k] == Arrived(waits[k].device, true);
    } else if k == |devices| || waits[k] == Cancelled {
      forall j: nat ensures Picked(waits, |devices|) != Some(j) {
        PickedIsFirstSuccess(waits, |devices|, j);
        if m :| 0 <= m < |devices| && m < |waits| && waits[m] == Arrived(j, true)
                && forall i :: 0 <= i < m ==> waits[i].Arrived? && !waits[i].ok {
          assert m == k;
        }
      }
      assert Picked(waits, |devices|) == None;
    }
  }

  lemma FewDevices(devices: seq<Transport>, waits: seq<Wait>)
    requires |devices| <= 1
    ensures Outcome(devices, waits) == if devices == [] then Failure(NoAuthenticators) else Success(devices[0])
  {}

  lemma {:induction false} OfferedExactly(candidates: seq<Candidate>, t: Transport)
    ensures t in Offers(candidates) <==> Offered(t) in candidates
  {
    if candidates != [] {
      OfferedExactly(candidates[1..], t);
      assert candidates == [candidates[0]] + candidates[1..];
    }
  }

  // --------------------------------------------------------------------- ownership

  function Rejected(offers: seq<Transport>): seq<Transport> {
    if offers == [] then [] else (if offers[0].initializes then [] else [offers[0]]) + Rejected(offers[1..])
  }

  function Others(devices: seq<Transport>, except: Option<Transport>): seq<Transport> {
    if devices == [] then []
    else (if Some(devices[0]) == except then [] else [devices[0]]) + Others(devices[1..], except)
  }

  /** What Select closes, in order: candidates that fail to initialize, then every device but the
      selected one, and that one as well when another does not close. */
  function Closes(offers: seq<Transport>, waits: seq<Wait>): seq<Transport>
    requires |Initialized(offers)| > 1 ==> InRange(waits, |Initialized(offers)|)
  {
    Rejected(offers) + Dismissed(Initialized(offers), waits)
  }

  function Dismissed(devices: seq<Transport>, waits: seq<Wait>): seq<Transport>
    requires |devices| > 1 ==> InRange(waits, |devices|)
  {
    if |devices| <= 1 then []
    else
      match Picked(waits, |devices|)
      case None => Others(devices, None)
      case Some(j) =>
        PickedInRange(waits, |devices|, |devices|);
        Others(devices, Some(devices[j])) + (if OthersClose(devices, j) then [] else [devices[j]])
  }

  /** The order of the closes: that of the devices, and the selected one, if at all, last. */
  lemma DismissedInOrder(devices: seq<Transport>, waits: seq<Wait>)
    requires NoRepeats(devices) && |devices| > 1 && InRange(waits, |devices|)
    ensures match Outcome(devices, waits)
            case Success(t) =>
              exists j :: 0 <= j < |devices| && devices[j] == t && Dismissed(devices, waits) == devices[..j] + devices[j + 1..]
            case Failure(error) =>
              if error == CloseFailed then
                exists j :: 0 <= j < |devices| && Dismissed(devices, waits) == devices[..j] + devices[j + 1..] + [devices[j]]
              else Dismissed(devices, waits) == devices
  {
    match Picked(waits, |devices|)
    case None => NoneExcepted(devices);
    case Some(j) =>
      PickedInRange(waits, |devices|, |devices|);
      OneExcepted(devices, j);
      assert devices[..j] + devices[j + 1..] + [] == devices[..j] + devices[j + 1..];
  }

  lemma {:induction false} NoneExcepted(devices: seq<Transport>)
    ensures Others(devices, None) == devices
  {
    if devices != [] {
      NoneExcepted(devices[1..]);
    }
  }

  lemma {:induction false} OneExcepted(devices: seq<Transport>, j: nat)
    requires NoRepeats(devices) && j < |devices|
    ensures Others(devices, Some(devices[j])) == devices[..j] + devices[j + 1..]
  {
    var tail := devices[1..];
    if j == 0 {
      NotExcepted(tail, devices[0]);
    } else {
      assert devices[0] != devices[j] && tail[j - 1] == devices[j];
      OneExcepted(tail, j - 1);
      assert [devices[0]] + tail[..j - 1] == devices[..j] && tail[j..] == devices[j + 1..];
    }
  }

  lemma {:induction false} NotExcepted(devices: seq<Transport>, t: Transport)
    requires t !in devices
    ensures Others(devices, Some(t)) == devices
  {
    if devices != [] {
      NotExcepted(devices[1..], t);
    }
  }

  /** closeDevices: everything but the exception. */
  method CloseDevices(ledger: Ledger, devices: seq<Transport>, except: Option<Transport>) returns (ok: bool)
    modifies ledger
    ensures ledger.closed == old(ledger.closed) + Others(devices, except)
    ensures ok <==> forall i :: 0 <= i < |devices| && Some(devices[i]) != except ==> !devices[i].closeFails
  {
    ok := true;
    var i := 0;
    while i < |devices|
      invariant 0 <= i <= |devices|
      invariant ledger.closed + Others(devices[i..], except) == old(ledger.closed) + Others(devices, except)
      invariant ok <==> forall j :: 0 <= j < i && Some(devices[j]) != except ==> !devices[j].closeFails
    {
      assert devices[i..][1..] == devices[i + 1..];
      if Some(devices[i]) != except {
        Associate(ledger.closed, [devices[i]], Others(devices[i + 1..], except));
        var closed := ledger.Close(devices[i]);
        ok := ok && closed;
      }
      i := i + 1;
    }
  }

  lemma {:induction false} InitializedMembers(offers: seq<Transport>)
    ensures forall t :: t in Initialized(offers) <==> t in offers && t.initializes
    ensures NoRepeats(offers) ==> NoRepeats(Initialized(offers))
  {
    if offers != [] {
      var tail := offers[1..];
      InitializedMembers(tail);
      assert offers == [offers[0]] + tail;
      if NoRepeats(offers) {
        assert NoRepeats(tail);
        assert offers[0] !in tail;
      }
    }
  }

  lemma FirstOffer(t: Transport, rest: seq<Transport>)
    ensures Initialized([t] + rest) == (if t.initializes then [t] else []) + Initialized(rest)
    ensures Rejected([t] + rest) == (if t.initializes then [] else [t]) + Rejected(rest)
  {
    assert ([t] + rest)[1..] == rest;
  }

  /** The transports that come to nothing are closed at once; the others become devices. */
  method Gather(ledger: Ledger, candidates: seq<Candidate>) returns (devices: seq<Transport>)
    modifies ledger
    ensures devices == Initialized(Offers(candidates))
    ensures ledger.closed == old(ledger.closed) + Rejected(Offers(candidates))
  {
    devices := [];
    var i := 0;
    while i < |candidates|
      invariant 0 <= i <= |candidates|
      invariant Initialized(Offers(candidates)) == devices + Initialized(Offers(candidates[i..]))
      invariant old(ledger.closed) + Rejected(Offers(candidates)) == ledger.closed + Rejected(Offers(candidates[i..]))
    {
      assert candidates[i..][1..] == candidates[i + 1..];
      ghost var rest := Offers(candidates[i + 1..]);
      if candidates[i].Offered? {
        var t := candidates[i].transport;
        assert Offers(candidates[i..]) == [t] + rest;
        FirstOffer(t, rest);
        if t.initializes {
          Associate(devices, [t], Initialized(rest));
          devices := devices + [t];
        } else {
          Associate(ledger.closed, [t], Rejected(rest));
          var _ := ledger.Close(t);
        }
      } else {
        assert Offers(candidates[i..]) == rest;
      }
      i := i + 1;
    }
  }

  /** Select closes what `Closes` lists and returns what `Outcome` says. */
  method Select(ledger: Ledger, candidates: seq<Candidate>, waits: seq<Wait>) returns (r: Result<Transport, SelectError>)
    requires NoRepeats(Offers(candidates))
    requires var n := |Initialized(Offers(candidates))|; n > 1 ==> InRange(waits, n)
    modifies ledger
    ensures r == Outcome(Initialized(Offers(candidates)), waits)
    ensures ledger.closed == old(ledger.closed) + Closes(Offers(candidates), waits)
  {
    var devices := Gather(ledger, candidates);
    InitializedMembers(Offers(candidates));
    if |devices| == 0 {
      return Failure(NoAuthenticators);
    }
    if |devices| == 1 {
      return Success(devices[0]);
    }
    r := Await(ledger, devices, waits);
  }

  /** The loop over the results, up to the first success or the cancellation. */
  method Await(ledger: Ledger, devices: seq<Transport>, waits: seq<Wait>) returns (r: Result<Transport, SelectError>)
    requires NoRepeats(devices) && |devices| > 1 && InRange(waits, |devices|)
    modifies ledger
    ensures r == Outcome(devices, waits)
    ensures ledger.closed == old(ledger.closed) + Dismissed(devices, waits)
  {
    var i := 0;
    while i < |devices|
      invariant 0 <= i <= |devices|
      invariant Picked(waits, |devices|) == Picked(waits[i..], |devices| - i)
      invariant CancelledFirst(waits, |devices|) == CancelledFirst(waits[i..], |devices| - i)
      invariant ledger.closed == old(ledger.closed)
    {
      assert waits[i..][1..] == waits[i + 1..];
      match waits[i] {
        case Cancelled =>
          var _ := CloseDevices(ledger, devices, None);
          return Failure(ContextDone);
        case Arrived(j, ok) =>
          if ok {
            ExceptByIndex(devices, j);
            var closed := CloseDevices(ledger, devices, Some(devices[j]));
            if !closed {
              var _ := ledger.Close(devices[j]);
              return Failure(CloseFailed);
            }
            return Success(devices[j]);
          }
      }
      i := i + 1;
    }
    var _ := CloseDevices(ledger, devices, None);
    return Failure(NoneSelected);
  }

  lemma ExceptByIndex(devices: seq<Transport>, j: nat)
    requires NoRepeats(devices) && j < |devices|
    ensures OthersClose(devices, j) <==>
            forall i :: 0 <= i < |devices| && Some(devices[i]) != Some(devices[j]) ==> !devices[i].closeFails
  {}

  function Count(s: seq<Transport>, t: Transport): nat {
    if s == [] then 0 else (if s[0] == t then 1 else 0) + Count(s[1..], t)
  }

  lemma {:induction false} CountAppend(a: seq<Transport>, b: seq<Transport>, t: Transport)
    ensures Count(a + b, t) == Count(a, t) + Count(b, t)
  {
    if a == [] {
      assert a + b == b;
    } else {
      assert (a + b)[1..] == a[1..] + b;
      CountAppend(a[1..], b, t);
    }
  }

  lemma {:induction false} CountOnce(s: seq<Transport>, t: Transport)
    requires NoRepeats(s)
    ensures Count(s, t) == if t in s then 1 else 0
  {
    if s != [] {
      CountOnce(s[1..], t);
      assert t in s <==> t == s[0] || t in s[1..];
    }
  }

  lemma {:induction false} CountSplit(offers: seq<Transport>, t: Transport)
    ensures Count(Rejected(offers), t) + Count(Initialized(offers), t) == Count(offers, t)
  {
    if offers != [] {
      var head := [offers[0]];
      CountSplit(offers[1..], t);
      CountAppend(head, Rejected(offers[1..]), t);
      CountAppend(head, Initialized(offers[1..]), t);
      assert Count(head, t) == if offers[0] == t then 1 else 0;
      assert [] + Rejected(offers[1..]) == Rejected(offers[1..]);
      assert [] + Initialized(offers[1..]) == Initialized(offers[1..]);
    }
  }

  lemma {:induction false} CountOthers(devices: seq<Transport>, except: Option<Transport>, t: Transport)
    ensures Count(Others(devices, except), t) == if Some(t) == except then 0 else Count(devices, t)
  {
    if devices != [] {
      var head := [devices[0]];
      CountOthers(devices[1..], except, t);
      CountAppend(head, Others(devices[1..], except), t);
      assert Count(head, t) == if devices[0] == t then 1 else 0;
      assert [] + Others(devices[1..], except) == Others(devices[1..], except);
    }
  }

  /** Whatever the enumeration, initialization failures, arrival order, cancellation and close failures,
      a transport offered ends either as the one returned, never closed, or closed exactly once; no
      other transport is touched. */
  lemma OwnershipConserved(offers: seq<Transport>, waits: seq<Wait>, t: Transport)
    requires NoRepeats(offers) && (|Initialized(offers)| > 1 ==> InRange(waits, |Initialized(offers)|))
    ensures Count(Closes(offers, waits), t) ==
            if t in offers && Outcome(Initialized(offers), waits) != Success(t) then 1 else 0
    ensures Outcome(Initialized(offers), waits) == Success(t) ==> t in offers
  {
    var devices := Initialized(offers);
    InitializedMembers(offers);
    CountSplit(offers, t);
    CountOnce(offers, t);
    CountOnce(devices, t);
    CountAppend(Rejected(offers), Dismissed(devices, waits), t);
    if |devices| > 1 {
      CountDismissed(devices, waits, t);
    } else if |devices| == 1 {
      assert devices[0] in devices;
    }
  }

  lemma CountDismissed(devices: seq<Transport>, waits: seq<Wait>, t: Transport)
    requires NoRepeats(devices) && |devices| > 1 && InRange(waits, |devices|)
    ensures Count(Dismissed(devices, waits), t) ==
            if t in devices && Outcome(devices, waits) != Success(t) then 1 else 0
    ensures Outcome(devices, waits) == Success(t) ==> t in devices
  {
    CountOnce(devices, t);
    match Picked(waits, |devices|)
    case None => CountOthers(devices, None, t);
    case Some(j) =>
      PickedInRange(waits, |devices|, |devices|);
      var picked := devices[j];
      CountOthers(devices, Some(picked), t);
      CountAppend(Others(devices, Some(picked)), [picked], t);
      assert Count([picked], t) == if picked == t then 1 else 0;
      assert Others(devices, Some(picked)) + [] == Others(devices, Some(picked));
  }

  // ----------------------------------------------------------------- the goroutines

  /** The results channel: what has been sent, of which the first `taken` have been received. */
  datatype Channel = Channel(devices: nat, sent: seq<Wait>, taken: nat)

  /** A selection goroutine sends its result, or the caller receives the next one. */
  datatype Event = Send(device: nat, ok: bool) | Receive

  predicate HasSent(c: Channel, device: nat) {
    exists i :: 0 <= i < |c.sent| && c.sent[i].Arrived? && c.sent[i].device == device
  }

  /** There is one goroutine a device, it sends once, and the channel holds len(devices) results. */
  predicate Enabled(c: Channel, e: Event) {
    match e
    case Send(d, _) => d < c.devices && !HasSent(c, d) && |c.sent| - c.taken < c.devices
    case Receive => c.taken < |c.sent|
  }

  function Apply(c: Channel, e: Event): Channel {
    match e
    case Send(d, ok) => c.(sent := c.sent + [Arrived(d, ok)])
    case Receive => c.(taken := c.taken + 1)
  }

  ghost predicate IsRun(c: Channel, events: seq<Event>)
    decreases |events|
  {
    events == [] || (Enabled(c, events[0]) && IsRun(Apply(c, events[0]), events[1..]))
  }

  function After(c: Channel, events: seq<Event>): Channel
    decreases |events|
  {
    if events == [] then c else After(Apply(c, events[0]), events[1..])
  }

  ghost predicate Orderly(c: Channel) {
    && c.taken <= |c.sent|
    && (forall i :: 0 <= i < |c.sent| ==> c.sent[i].Arrived? && c.sent[i].device < c.devices)
    && (forall i, j :: 0 <= i < j < |c.sent| ==> c.sent[i].device != c.sent[j].device)
  }

  lemma {:induction false} RunsAreOrderly(c: Channel, events: seq<Event>)
    requires Orderly(c) && IsRun(c, events)
    ensures Orderly(After(c, events)) && After(c, events).devices == c.devices
    decreases |events|
  {
    if events != [] {
      RunsAreOrderly(Apply(c, events[0]), events[1..]);
    }
  }

  function Senders(sent: seq<Wait>): set<nat> {
    set i | 0 <= i < |sent| && sent[i].Arrived? :: sent[i].device
  }

  lemma {:induction false} SendersCounted(c: Channel, k: nat)
    requires Orderly(c) && k <= |c.sent|
    ensures |Senders(c.sent[..k])| == k
  {
    if k > 0 {
      SendersCounted(c, k - 1);
      var last := c.sent[k - 1];
      assert c.sent[..k] == c.sent[..k - 1] + [last];
      assert forall i :: 0 <= i < k - 1 ==> c.sent[..k - 1][i] == c.sent[i];
      assert last.device !in Senders(c.sent[..k - 1]);
      assert c.sent[..k][k - 1] == last;
      forall d | d in Senders(c.sent[..k - 1]) ensures d in Senders(c.sent[..k]) {
        var i :| 0 <= i < k - 1 && c.sent[i].device == d;
        assert c.sent[..k][i].device == d;
      }
      assert Senders(c.sent[..k]) == Senders(c.sent[..k - 1]) + {last.device};
    }
  }

  lemma {:induction false} UpTo(n: nat) returns (s: set<nat>)
    ensures |s| == n && forall d: nat :: d in s <==> d < n
  {
    if n == 0 {
      s := {};
    } else {
      var t := UpTo(n - 1);
      s := t + {n - 1};
    }
  }

  lemma Smaller(a: set<nat>, b: set<nat>, x: nat)
    requires a <= b && x in b && x !in a
    ensures |a| < |b|
  {
    assert b == a + (b - a);
    assert x in b - a;
  }

  lemma Within(a: set<nat>, b: set<nat>)
    requires a <= b
    ensures |a| <= |b|
  {
    assert b == a + (b - a);
  }

  /** No goroutine is ever blocked on its send, and a caller still waiting always has someone to wait for. */
  lemma NoSendBlocks(n: nat, events: seq<Event>, d: nat, ok: bool)
    requires IsRun(Channel(n, [], 0), events) && d < n
    ensures var c := After(Channel(n, [], 0), events);
            && (!HasSent(c, d) ==> Enabled(c, Send(d, ok)))
            && (c.taken < n ==> Enabled(c, Receive) || exists other: nat :: other < n && !HasSent(c, other))
            && c.taken <= |c.sent| <= n && (c.taken == n ==> InRange(c.sent, n))
  {
    RunsAreOrderly(Channel(n, [], 0), events);
    var c := After(Channel(n, [], 0), events);
    SendersCounted(c, |c.sent|);
    assert c.sent[..|c.sent|] == c.sent;
    var all := UpTo(n);
    forall other: nat | other in Senders(c.sent) ensures other in all {}
    Within(Senders(c.sent), all);
    if !HasSent(c, d) {
      Smaller(Senders(c.sent), all, d);
    }
    if forall other: nat :: other < n ==> HasSent(c, other) {
      forall other: nat | other in all ensures other in Senders(c.sent) {
        assert HasSent(c, other);
      }
      Within(all, Senders(c.sent));
    }
  }
}
