/** CTAP BLE encapsulation (transport/ctapble/framing.go): splitting a frame into
    control-point fragments and reassembling status notifications. */
module BleFraming {
  import opened Bytes

  const INITIALIZATION_HEADER := 3
  const CONTINUATION_HEADER := 1
  const MAXIMUM_FRAME_DATA := 0xffff
  const INITIALIZATION_BIT := 0x80
  const SEQUENCE_MODULUS := 0x80

  datatype Frame = Frame(status: byte, data: bytes)

  function Front<T>(s: seq<T>): seq<T>
    requires s != []
  {
    s[..|s| - 1]
  }

  function Last<T>(s: seq<T>): T
    requires s != []
  {
    s[|s| - 1]
  }

  datatype FrameError =
    | DataTooLarge
    | EmptyFragment
    | InterruptedFrame
    | ShortInitialization
    | InitializationTooLong
    | OrphanContinuation
    | WrongSequence
    | ContinuationTooLong

  // ---------------------------------------------------------------- splitting

  function Continuations(data: bytes, maxLen: nat, sequence: byte): (r: seq<bytes>)
    requires maxLen > CONTINUATION_HEADER
    decreases |data|
  {
    if data == [] then []
    else
      var n := Min(|data|, maxLen - CONTINUATION_HEADER);
      [[sequence] + data[..n]] + Continuations(data[n..], maxLen, (sequence + 1) % SEQUENCE_MODULUS)
  }

  function Fragments(frame: Frame, maxLen: nat): (r: seq<bytes>)
    requires |frame.data| <= MAXIMUM_FRAME_DATA && maxLen >= INITIALIZATION_HEADER
  {
    var n := Min(|frame.data|, maxLen - INITIALIZATION_HEADER);
    [[frame.status] + PutUint16(|frame.data|) + frame.data[..n]] + Continuations(frame.data[n..], maxLen, 0)
  }

  /** fragmentFrame. `maxLen < 3` makes the original slice out of range. */
  method FragmentFrame(status: byte, data: bytes, maxLen: nat) returns (r: Result<seq<bytes>, FrameError>)
    requires maxLen >= INITIALIZATION_HEADER
    ensures |data| > MAXIMUM_FRAME_DATA ==> r == Failure(DataTooLarge)
    ensures |data| <= MAXIMUM_FRAME_DATA ==> r == Success(Fragments(Frame(status, data), maxLen))
  {
    if |data| > MAXIMUM_FRAME_DATA {
      return Failure(DataTooLarge);
    }
    var initial := Min(|data|, maxLen - INITIALIZATION_HEADER);
    var fragments := [[status] + PutUint16(|data|) + data[..initial]];
    var rest := data[initial..];
    var sequence: byte := 0;
    while |rest| != 0
      invariant fragments + Continuations(rest, maxLen, sequence) == Fragments(Frame(status, data), maxLen)
      decreases |rest|
    {
      var n := Min(|rest|, maxLen - CONTINUATION_HEADER);
      fragments := fragments + [[sequence] + rest[..n]];
      rest := rest[n..];
      sequence := (sequence + 1) % SEQUENCE_MODULUS;
    }
    assert fragments + [] == fragments;
    return Success(fragments);
  }

  // ------------------------------------------------------------- reassembling

  /** The assembler's fields as a value. */
  datatype Assembly = Assembly(status: byte, dataLength: nat, data: bytes, sequence: byte, assembling: bool)

  const IDLE := Assembly(0, 0, [], 0, false)

  type Output = Result<Option<Frame>, FrameError>

  function Initialize(a: Assembly, fragment: bytes): (r: (Assembly, Output))
    requires |fragment| > 0
  {
    if a.assembling then (a, Failure(InterruptedFrame))
    else if |fragment| < INITIALIZATION_HEADER then (a, Failure(ShortInitialization))
    else
      var b := a.(status := fragment[0], dataLength := Uint16(fragment, 1));
      var data := fragment[INITIALIZATION_HEADER..];
      if |data| > b.dataLength then (b, Failure(InitializationTooLong))
      else if |data| != b.dataLength then
        (b.(data := data, sequence := 0, assembling := true), Success(None))
      else
        (b.(data := [], sequence := 0, assembling := false), Success(Some(Frame(b.status, data))))
  }

  function Continue(a: Assembly, fragment: bytes): (r: (Assembly, Output))
    requires |fragment| > 0
  {
    if !a.assembling then (a, Failure(OrphanContinuation))
    else if fragment[0] != a.sequence then (a, Failure(WrongSequence))
    else
      var data := a.data + fragment[CONTINUATION_HEADER..];
      if |data| > a.dataLength then (a, Failure(ContinuationTooLong))
      else
        var b := a.(sequence := (a.sequence + 1) % SEQUENCE_MODULUS);
        if |data| != a.dataLength then (b.(data := data), Success(None))
        else (b.(data := [], assembling := false), Success(Some(Frame(a.status, data))))
  }

  /** addFragment on values: the next fields and what the call returns. */
  function Add(a: Assembly, fragment: bytes): (r: (Assembly, Output)) {
    if |fragment| == 0 then (a, Failure(EmptyFragment))
    else if fragment[0] >= INITIALIZATION_BIT then Initialize(a, fragment)
    else Continue(a, fragment)
  }

  /** responseFrameAssembler. */
  class ResponseFrameAssembler {
    var status: byte
    var dataLength: nat
    var data: bytes
    var sequence: byte
    var assembling: bool

    constructor ()
      ensures State() == IDLE == Assembly(0, 0, [], 0, false)
    {
      status, dataLength, data, sequence, assembling := 0, 0, [], 0, false;
    }

    function State(): Assembly
      reads this
    {
      Assembly(status, dataLength, data, sequence, assembling)
    }

    method AddFragment(fragment: bytes) returns (r: Output)
      modifies this
      ensures (State(), r) == Add(old(State()), fragment)
    {
      if |fragment| == 0 {
        return Failure(EmptyFragment);
      }
      if fragment[0] >= INITIALIZATION_BIT {
        r := InitializationFragment(fragment);
      } else {
        r := ContinuationFragment(fragment);
      }
    }

    method InitializationFragment(fragment: bytes) returns (r: Output)
      requires |fragment| > 0
      modifies this
      ensures (State(), r) == Initialize(old(State()), fragment)
    {
      if assembling {
        return Failure(InterruptedFrame);
      }
      if |fragment| < INITIALIZATION_HEADER {
        return Failure(ShortInitialization);
      }
      status := fragment[0];
      dataLength := Uint16(fragment, 1);
      if |fragment| - INITIALIZATION_HEADER > dataLength {
        return Failure(InitializationTooLong);
      }
      data := fragment[INITIALIZATION_HEADER..];
      sequence := 0;
      assembling := |data| != dataLength;
      if assembling {
        return Success(None);
      }
      var frame := CompleteFrame();
      return Success(Some(frame));
    }

    method ContinuationFragment(fragment: bytes) returns (r: Output)
      requires |fragment| > 0
      modifies this
      ensures (State(), r) == Continue(old(State()), fragment)
    {
      if !assembling {
        return Failure(OrphanContinuation);
      }
      if fragment[0] != sequence {
        return Failure(WrongSequence);
      }
      if |data| + |fragment| - CONTINUATION_HEADER > dataLength {
        return Failure(ContinuationTooLong);
      }
      data := data + fragment[CONTINUATION_HEADER..];
      sequence := (sequence + 1) % SEQUENCE_MODULUS;
      if |data| != dataLength {
        return Success(None);
      }
      assembling := false;
      var frame := CompleteFrame();
      return Success(Some(frame));
    }

    method CompleteFrame() returns (frame: Frame)
      modifies this`data
      ensures frame == Frame(status, old(data)) && data == []
    {
      frame := Frame(status, data);
      data := [];
    }
  }

  // ----------------------------------------------- what a framing is, by itself

  function Body(fragment: bytes, header: nat): bytes {
    if |fragment| < header then [] else fragment[header..]
  }

  function Payload(fragments: seq<bytes>): bytes {
    if fragments == [] then []
    else if |fragments| == 1 then Body(fragments[0], INITIALIZATION_HEADER)
    else Payload(fragments[..|fragments| - 1]) + Body(fragments[|fragments| - 1], CONTINUATION_HEADER)
  }

  /** One initialization fragment, then continuations numbered i mod 128. */
  ghost predicate Numbered(fragments: seq<bytes>) {
    && |fragments| > 0
    && |fragments[0]| >= INITIALIZATION_HEADER && fragments[0][0] >= INITIALIZATION_BIT
    && forall i :: 1 <= i < |fragments| ==>
         |fragments[i]| >= CONTINUATION_HEADER && fragments[i][0] == (i - 1) % SEQUENCE_MODULUS
  }

  /** Neither the fragments nor any non-empty prefix of them carries `n` bytes. */
  ghost predicate Incomplete(fragments: seq<bytes>, n: nat) {
    fragments == [] || (|Payload(fragments)| < n && Incomplete(Front(fragments), n))
  }

  /** `fragments` carry exactly `frame`, and no shorter prefix of them is complete. */
  ghost predicate IsFraming(fragments: seq<bytes>, frame: Frame) {
    && Numbered(fragments)
    && fragments[0][0] == frame.status
    && Uint16(fragments[0], 1) == |frame.data|
    && Payload(fragments) == frame.data
    && Incomplete(Front(fragments), |frame.data|)
  }

  // ------------------------------------------------ runs over arbitrary fragments

  function After(a: Assembly, fragments: seq<bytes>): Assembly {
    if fragments == [] then a
    else Add(After(a, Front(fragments)), Last(fragments)).0
  }

  function Outputs(a: Assembly, fragments: seq<bytes>): (r: seq<Output>)
    ensures |r| == |fragments|
  {
    if fragments == [] then []
    else Outputs(a, Front(fragments)) + [Add(After(a, Front(fragments)), Last(fragments)).1]
  }

  /** The fragments accepted since the last accepted initialization fragment. */
  function Accepted(a: Assembly, fragments: seq<bytes>): seq<bytes> {
    if fragments == [] then []
    else
      var log := Accepted(a, Front(fragments));
      if Add(After(a, Front(fragments)), Last(fragments)).1.Failure? then log
      else if Last(fragments)[0] >= INITIALIZATION_BIT then [Last(fragments)]
      else log + [Last(fragments)]
  }

  ghost predicate Holding(a: Assembly, log: seq<bytes>) {
    && Numbered(log) && Incomplete(log, Uint16(log[0], 1))
    && a == Assembly(log[0][0], Uint16(log[0], 1), Payload(log), (|log| - 1) % SEQUENCE_MODULUS, true)
  }

  ghost predicate Tracks(a: Assembly, log: seq<bytes>, out: Output) {
    && (a.assembling ==> Holding(a, log))
    && (out.Success? && out.value.Some? ==> !a.assembling && IsFraming(log, out.value.value))
  }

  lemma AppendContinuation(log: seq<bytes>, fragment: bytes)
    requires Numbered(log) && |fragment| >= CONTINUATION_HEADER
    requires fragment[0] == (|log| - 1) % SEQUENCE_MODULUS
    ensures Numbered(log + [fragment])
    ensures Front(log + [fragment]) == log
    ensures Payload(log + [fragment]) == Payload(log) + fragment[CONTINUATION_HEADER..]
  {}

  lemma InitializeTracks(a: Assembly, fragment: bytes)
    requires |fragment| > 0 && fragment[0] >= INITIALIZATION_BIT
    requires Initialize(a, fragment).1.Success?
    ensures Tracks(Initialize(a, fragment).0, [fragment], Initialize(a, fragment).1)
  {
    assert Front([fragment]) == [];
  }

  lemma NextSequence(k: nat)
    ensures (k % SEQUENCE_MODULUS + 1) % SEQUENCE_MODULUS == (k + 1) % SEQUENCE_MODULUS
  {}

  lemma ContinueTracks(a: Assembly, log: seq<bytes>, fragment: bytes)
    requires a.assembling && Holding(a, log) && |fragment| > 0
    requires Continue(a, fragment).1.Success?
    ensures Tracks(Continue(a, fragment).0, log + [fragment], Continue(a, fragment).1)
  {
    var next := log + [fragment];
    AppendContinuation(log, fragment);
    NextSequence(|log| - 1);
    var (b, out) := Continue(a, fragment);
    if out.value.Some? {
      assert !b.assembling;
      assert out.value.value == Frame(log[0][0], Payload(next));
      assert IsFraming(next, out.value.value);
    } else {
      assert Incomplete(next, Uint16(log[0], 1));
      assert Holding(b, next);
    }
  }

  /** One accepted or rejected fragment, seen from the log of accepted ones. */
  lemma AddTracks(a: Assembly, log: seq<bytes>, fragment: bytes)
    requires a.assembling ==> Holding(a, log)
    ensures var (b, out) := Add(a, fragment);
            Tracks(b, if out.Failure? then log else if fragment[0] >= INITIALIZATION_BIT then [fragment] else log + [fragment], out)
  {
    if Add(a, fragment).1.Success? {
      if fragment[0] >= INITIALIZATION_BIT {
        InitializeTracks(a, fragment);
      } else {
        ContinueTracks(a, log, fragment);
      }
    }
  }

  /** Whatever is fed to it, an assembler holds exactly the accepted fragments, and a frame
      comes out only when they are a complete framing of that frame. */
  lemma {:induction false} AssemblerSound(a: Assembly, fragments: seq<bytes>)
    requires !a.assembling
    ensures After(a, fragments).assembling ==> Holding(After(a, fragments), Accepted(a, fragments))
    ensures fragments != [] ==>
              var out := Last(Outputs(a, fragments));
              out.Success? && out.value.Some? ==> IsFraming(Accepted(a, fragments), out.value.value)
  {
    if fragments != [] {
      AssemblerSound(a, Front(fragments));
      AddTracks(After(a, Front(fragments)), Accepted(a, Front(fragments)), Last(fragments));
    }
  }

  // ------------------------------------------------------------ one frame, exactly

  /** Nothing comes out before the last fragment, and `frame` comes out at it. */
  ghost predicate EmitsAtEnd(outputs: seq<Output>, frame: Frame) {
    && |outputs| > 0
    && Last(outputs) == Success(Some(frame))
    && forall i :: 0 <= i < |outputs| - 1 ==> outputs[i] == Success(None)
  }

  lemma AddKeepsAssembling(a: Assembly, log: seq<bytes>, fragment: bytes)
    requires Holding(a, log)
    requires |fragment| >= CONTINUATION_HEADER && fragment[0] == (|log| - 1) % SEQUENCE_MODULUS
    requires |Payload(log + [fragment])| < Uint16(log[0], 1)
    ensures Add(a, fragment).1 == Success(None) && Holding(Add(a, fragment).0, log + [fragment])
  {
    AppendContinuation(log, fragment);
    AddTracks(a, log, fragment);
  }

  /** While the fragments are incomplete nothing comes out and nothing is lost. */
  lemma {:induction false} Assembling(a: Assembly, fragments: seq<bytes>)
    requires !a.assembling && Numbered(fragments) && Incomplete(fragments, Uint16(fragments[0], 1))
    ensures Holding(After(a, fragments), fragments)
    ensures forall out :: out in Outputs(a, fragments) ==> out == Success(None)
  {
    var front := Front(fragments);
    if front == [] {
      assert fragments == [fragments[0]] && After(a, front) == a;
      AddTracks(a, [], fragments[0]);
    } else {
      Assembling(a, front);
      assert fragments == front + [Last(fragments)];
      AddKeepsAssembling(After(a, front), front, Last(fragments));
    }
  }

  lemma AssemblerComplete(a: Assembly, fragments: seq<bytes>, frame: Frame)
    requires !a.assembling && IsFraming(fragments, frame)
    ensures EmitsAtEnd(Outputs(a, fragments), frame) && !After(a, fragments).assembling
  {
    var front := Front(fragments);
    if front != [] {
      Assembling(a, front);
      AppendContinuation(front, Last(fragments));
      assert front + [Last(fragments)] == fragments;
      assert Outputs(a, fragments)[..|front|] == Outputs(a, front);
      forall i | 0 <= i < |front| ensures Outputs(a, fragments)[i] == Success(None) {
        assert Outputs(a, front)[i] in Outputs(a, front);
      }
    }
  }

  lemma {:induction false} AcceptedAll(a: Assembly, fragments: seq<bytes>)
    requires !a.assembling && fragments != []
    requires forall i :: 0 <= i < |fragments| ==> Outputs(a, fragments)[i].Success?
    requires forall i :: 0 <= i < |fragments| - 1 ==> Outputs(a, fragments)[i] == Success(None)
    ensures Accepted(a, fragments) == fragments
  {
    var front := Front(fragments);
    assert Outputs(a, front) == Front(Outputs(a, fragments));
    assert Last(Outputs(a, fragments)).Success?;
    if front != [] {
      AcceptedAll(a, front);
      AssemblerSound(a, front);
      StillAssembling(a, front);
      assert front + [Last(fragments)] == fragments;
    }
  }

  lemma {:induction false} StillAssembling(a: Assembly, fragments: seq<bytes>)
    requires !a.assembling && fragments != []
    requires forall i :: 0 <= i < |fragments| ==> Outputs(a, fragments)[i] == Success(None)
    ensures After(a, fragments).assembling
  {
    assert Last(Outputs(a, fragments)) == Success(None);
  }

  /** From any idle assembler: a fragment list yields nothing until its last fragment and then
      `frame`, if and only if it is a framing of `frame`. */
  lemma AssemblerExact(a: Assembly, fragments: seq<bytes>, frame: Frame)
    requires !a.assembling
    ensures EmitsAtEnd(Outputs(a, fragments), frame) <==> IsFraming(fragments, frame)
  {
    if IsFraming(fragments, frame) {
      AssemblerComplete(a, fragments, frame);
    }
    if EmitsAtEnd(Outputs(a, fragments), frame) {
      AcceptedAll(a, fragments);
      AssemblerSound(a, fragments);
    }
  }

  // ------------------------------------------------------- the splitter is a framing

  /** The i-th continuation is numbered (start + i) mod 128 and none is longer than `maxLen`. */
  lemma {:induction false} ContinuationShape(data: bytes, maxLen: nat, start: byte)
    requires maxLen > CONTINUATION_HEADER && start < SEQUENCE_MODULUS
    ensures forall i :: 0 <= i < |Continuations(data, maxLen, start)| ==>
              var f := Continuations(data, maxLen, start)[i];
              1 < |f| <= maxLen && f[0] == (start + i) % SEQUENCE_MODULUS
    decreases |data|
  {
    if data != [] {
      var n := Min(|data|, maxLen - CONTINUATION_HEADER);
      var next := (start + 1) % SEQUENCE_MODULUS;
      ContinuationShape(data[n..], maxLen, next);
      var all := Continuations(data, maxLen, start);
      var tail := Continuations(data[n..], maxLen, next);
      forall i | 0 <= i < |all|
        ensures 1 < |all[i]| <= maxLen && all[i][0] == (start + i) % SEQUENCE_MODULUS
      {
        if i > 0 {
          assert all[i] == tail[i - 1];
        }
      }
    }
  }

  lemma PayloadSnoc(head: seq<bytes>, fragment: bytes)
    requires head != []
    ensures Payload(head + [fragment]) == Payload(head) + Body(fragment, CONTINUATION_HEADER)
  {
    assert Front(head + [fragment]) == head;
  }

  /** Appending the continuations of `data` to fragments carries the old payload and `data`. */
  lemma {:induction false} ContinuationPayload(head: seq<bytes>, data: bytes, maxLen: nat, start: byte)
    requires maxLen > CONTINUATION_HEADER && head != []
    ensures Payload(head + Continuations(data, maxLen, start)) == Payload(head) + data
    decreases |data|
  {
    if data == [] {
      assert head + [] == head;
    } else {
      var n := Min(|data|, maxLen - CONTINUATION_HEADER);
      var first := [start] + data[..n];
      var tail := Continuations(data[n..], maxLen, (start + 1) % SEQUENCE_MODULUS);
      assert head + ([first] + tail) == (head + [first]) + tail;
      PayloadSnoc(head, first);
      assert Body(first, CONTINUATION_HEADER) == data[..n];
      ContinuationPayload(head + [first], data[n..], maxLen, (start + 1) % SEQUENCE_MODULUS);
      Rejoin(Payload(head), data, n);
    }
  }

  /** While every continuation carries something, no proper prefix is complete. */
  lemma {:induction false} GrowingIsIncomplete(fragments: seq<bytes>, n: nat)
    requires forall i :: 1 <= i < |fragments| ==> |fragments[i]| > CONTINUATION_HEADER
    requires |Payload(fragments)| < n
    ensures Incomplete(fragments, n)
  {
    if |fragments| > 1 {
      GrowingIsIncomplete(Front(fragments), n);
    }
  }

  lemma FragmentsShape(frame: Frame, maxLen: nat)
    requires frame.status >= INITIALIZATION_BIT && |frame.data| <= MAXIMUM_FRAME_DATA
    requires maxLen >= INITIALIZATION_HEADER
    ensures Numbered(Fragments(frame, maxLen))
    ensures Uint16(Fragments(frame, maxLen)[0], 1) == |frame.data|
    ensures forall f :: f in Fragments(frame, maxLen) ==> |f| <= maxLen
    ensures forall i :: 1 <= i < |Fragments(frame, maxLen)| ==> |Fragments(frame, maxLen)[i]| > CONTINUATION_HEADER
  {
    var n := Min(|frame.data|, maxLen - INITIALIZATION_HEADER);
    ContinuationShape(frame.data[n..], maxLen, 0);
    var all := Fragments(frame, maxLen);
    forall i | 1 <= i < |all| ensures all[i] == Continuations(frame.data[n..], maxLen, 0)[i - 1] {}
  }

  lemma FragmentsPayload(frame: Frame, maxLen: nat)
    requires |frame.data| <= MAXIMUM_FRAME_DATA && maxLen >= INITIALIZATION_HEADER
    ensures Payload(Fragments(frame, maxLen)) == frame.data
  {
    var n := Min(|frame.data|, maxLen - INITIALIZATION_HEADER);
    var first := Fragments(frame, maxLen)[0];
    assert Body(first, INITIALIZATION_HEADER) == frame.data[..n];
    ContinuationPayload([first], frame.data[n..], maxLen, 0);
    assert frame.data[..n] + frame.data[n..] == frame.data;
  }

  lemma FragmentsAreFraming(frame: Frame, maxLen: nat)
    requires frame.status >= INITIALIZATION_BIT && |frame.data| <= MAXIMUM_FRAME_DATA
    requires maxLen >= INITIALIZATION_HEADER
    ensures IsFraming(Fragments(frame, maxLen), frame)
    ensures forall f :: f in Fragments(frame, maxLen) ==> |f| <= maxLen
  {
    var all := Fragments(frame, maxLen);
    FragmentsShape(frame, maxLen);
    FragmentsPayload(frame, maxLen);
    if |all| > 1 {
      GrowingIsIncomplete(Front(all), |frame.data|);
    }
  }

  /** On the wire: status, length with the high byte first, data; then a sequence byte and data. */
  lemma FragmentLayout(frame: Frame, maxLen: nat, i: nat)
    requires |frame.data| <= MAXIMUM_FRAME_DATA && maxLen >= INITIALIZATION_HEADER && i < |Fragments(frame, maxLen)|
    ensures var f := Fragments(frame, maxLen)[0];
            && |f| == 3 + Min(|frame.data|, maxLen - 3) && f[0] == frame.status
            && f[1] as int * 0x100 + f[2] as int == |frame.data| && f[3..] == frame.data[..|f| - 3]
    ensures i > 0 ==> Fragments(frame, maxLen)[i] != [] && Fragments(frame, maxLen)[i][0] == (i - 1) % 0x80
    ensures i < |Fragments(frame, maxLen)| - 1 ==> |Fragments(frame, maxLen)[i]| == maxLen
  {
    var n := Min(|frame.data|, maxLen - INITIALIZATION_HEADER);
    if |Fragments(frame, maxLen)| > 1 {
      ContinuationShape(frame.data[n..], maxLen, 0);
      ContinuationsFill(frame.data[n..], maxLen, 0);
    }
  }

  /** Every continuation but the last is as long as allowed. */
  lemma {:induction false} ContinuationsFill(data: bytes, maxLen: nat, start: byte)
    requires maxLen > CONTINUATION_HEADER
    ensures forall i :: 0 <= i < |Continuations(data, maxLen, start)| - 1 ==> |Continuations(data, maxLen, start)[i]| == maxLen
    decreases |data|
  {
    if data != [] {
      var n := Min(|data|, maxLen - CONTINUATION_HEADER);
      ContinuationsFill(data[n..], maxLen, (start + 1) % SEQUENCE_MODULUS);
      if n == |data| {
        assert Continuations(data[n..], maxLen, (start + 1) % SEQUENCE_MODULUS) == [];
      }
    }
  }

  /** Which error a fragment gets, told from its bytes and the frame being assembled. */
  lemma RejectedExactly(a: Assembly, fragment: bytes)
    ensures var r := Add(a, fragment).1;
            && (r == Failure(EmptyFragment) <==> |fragment| == 0)
            && (r == Failure(InterruptedFrame) <==> |fragment| > 0 && fragment[0] >= 128 && a.assembling)
            && (r == Failure(ShortInitialization) <==> 0 < |fragment| < 3 && fragment[0] >= 128 && !a.assembling)
            && (r == Failure(InitializationTooLong) <==>
                  |fragment| >= 3 && fragment[0] >= 128 && !a.assembling
                  && |fragment| - 3 > fragment[1] as int * 256 + fragment[2] as int)
            && (r == Failure(OrphanContinuation) <==> |fragment| > 0 && fragment[0] < 128 && !a.assembling)
            && (r == Failure(WrongSequence) <==> |fragment| > 0 && fragment[0] < 128 && a.assembling && fragment[0] != a.sequence)
            && (r == Failure(ContinuationTooLong) <==>
                  |fragment| > 0 && fragment[0] < 128 && a.assembling && fragment[0] == a.sequence
                  && |a.data| + |fragment| - 1 > a.dataLength)
            && (r.Failure? ==> r.error != DataTooLarge)
  {}

  /** An emitted frame leaves nothing behind to assemble or to hold. */
  lemma EmissionLeaves(a: Assembly, fragment: bytes)
    requires Add(a, fragment).1.Success? && Add(a, fragment).1.value.Some?
    ensures var frame := Add(a, fragment).1.value.value;
            && (fragment[0] >= 128 ==> Add(a, fragment).0 == Assembly(frame.status, |frame.data|, [], 0, false))
            && (fragment[0] < 128 ==> Add(a, fragment).0 == Assembly(a.status, a.dataLength, [], (fragment[0] + 1) % 128, false))
  {}

  /** A rejected fragment does not disturb the frame being assembled, nor start one. */
  lemma RejectionKeepsFrame(a: Assembly, fragment: bytes)
    requires Add(a, fragment).1.Failure?
    ensures Add(a, fragment).0.assembling == a.assembling
    ensures a.assembling ==> Add(a, fragment).0 == a
  {}

  lemma {:induction false} IncompletePrefix(fragments: seq<bytes>, n: nat, k: nat)
    requires Incomplete(fragments, n) && k <= |fragments|
    ensures Incomplete(fragments[..k], n)
  {
    if k < |fragments| {
      IncompletePrefix(Front(fragments), n, k);
      assert Front(fragments)[..k] == fragments[..k];
    } else {
      assert fragments[..k] == fragments;
    }
  }

  /** A framing fed in order: the fragment after the first `k`. */
  lemma NextFragment(a: Assembly, fragments: seq<bytes>, frame: Frame, k: nat)
    requires IsFraming(fragments, frame) && k < |fragments|
    requires if k == 0 then !a.assembling else Holding(a, fragments[..k])
    ensures var (b, out) := Add(a, fragments[k]);
            if k + 1 < |fragments| then out == Success(None) && Holding(b, fragments[..k + 1])
            else out == Success(Some(frame)) && !b.assembling
  {
    PrefixOfFraming(fragments, frame, k);
    if k == 0 {
      FirstFragment(a, fragments[0], fragments[..1], frame);
    } else {
      LaterFragment(a, fragments[..k], fragments[k], fragments[..k + 1], frame);
    }
  }

  /** The first k + 1 fragments of a framing are numbered, and incomplete unless they are all. */
  lemma PrefixOfFraming(fragments: seq<bytes>, frame: Frame, k: nat)
    requires IsFraming(fragments, frame) && k < |fragments|
    ensures fragments[..k + 1] == fragments[..k] + [fragments[k]]
    ensures k + 1 < |fragments| ==> Incomplete(fragments[..k + 1], |frame.data|)
    ensures k + 1 == |fragments| ==> fragments[..k + 1] == fragments
    ensures k > 0 ==> Numbered(fragments[..k]) && fragments[..k][0] == fragments[0]
  {
    if k + 1 < |fragments| {
      IncompletePrefix(Front(fragments), |frame.data|, k + 1);
      assert Front(fragments)[..k + 1] == fragments[..k + 1];
    }
  }

  lemma FirstFragment(a: Assembly, fragment: bytes, now: seq<bytes>, frame: Frame)
    requires !a.assembling && now == [fragment] && Numbered(now)
    requires fragment[0] == frame.status && Uint16(fragment, 1) == |frame.data|
    requires Incomplete(now, |frame.data|) || IsFraming(now, frame)
    ensures var (b, out) := Add(a, fragment);
            if IsFraming(now, frame) then out == Success(Some(frame)) && !b.assembling
            else out == Success(None) && Holding(b, now)
  {
    AddTracks(a, [], fragment);
  }

  lemma LaterFragment(a: Assembly, log: seq<bytes>, fragment: bytes, now: seq<bytes>, frame: Frame)
    requires Holding(a, log) && now == log + [fragment] && Numbered(now)
    requires log[0][0] == frame.status && Uint16(log[0], 1) == |frame.data|
    requires Incomplete(now, |frame.data|) || IsFraming(now, frame)
    ensures var (b, out) := Add(a, fragment);
            if IsFraming(now, frame) then out == Success(Some(frame)) && !b.assembling
            else out == Success(None) && Holding(b, now)
  {
    AppendContinuation(log, fragment);
    AddTracks(a, log, fragment);
  }

  // -------------------------------------------------------------- streams of frames

  function Stream(frames: seq<Frame>, maxLen: nat): seq<bytes>
    requires maxLen >= INITIALIZATION_HEADER
    requires forall i :: 0 <= i < |frames| ==> |frames[i].data| <= MAXIMUM_FRAME_DATA
  {
    if frames == [] then []
    else Stream(Front(frames), maxLen) + Fragments(Last(frames), maxLen)
  }

  /** Nothing for every fragment of the frame but the last, and the frame for that one. */
  function Ticks(frame: Frame, maxLen: nat): seq<Output>
    requires maxLen >= INITIALIZATION_HEADER && |frame.data| <= MAXIMUM_FRAME_DATA
  {
    seq(|Fragments(frame, maxLen)| - 1, _ => Success(None)) + [Success(Some(frame))]
  }

  /** What the assembler must return over a stream of frames. */
  function Expected(frames: seq<Frame>, maxLen: nat): seq<Output>
    requires maxLen >= INITIALIZATION_HEADER
    requires forall i :: 0 <= i < |frames| ==> |frames[i].data| <= MAXIMUM_FRAME_DATA
  {
    if frames == [] then []
    else
      Expected(Front(frames), maxLen) + Ticks(Last(frames), maxLen)
  }

  lemma {:induction false} RunAppend(a: Assembly, xs: seq<bytes>, ys: seq<bytes>)
    ensures After(a, xs + ys) == After(After(a, xs), ys)
    ensures Outputs(a, xs + ys) == Outputs(a, xs) + Outputs(After(a, xs), ys)
  {
    if ys == [] {
      assert xs + ys == xs;
    } else {
      assert Front(xs + ys) == xs + Front(ys);
      RunAppend(a, xs, Front(ys));
    }
  }

  lemma OneFrame(a: Assembly, frame: Frame, maxLen: nat)
    requires !a.assembling && maxLen >= INITIALIZATION_HEADER
    requires frame.status >= INITIALIZATION_BIT && |frame.data| <= MAXIMUM_FRAME_DATA
    ensures !After(a, Fragments(frame, maxLen)).assembling
    ensures Outputs(a, Fragments(frame, maxLen)) == Ticks(frame, maxLen)
  {
    FragmentsAreFraming(frame, maxLen);
    AssemblerComplete(a, Fragments(frame, maxLen), frame);
  }

  /** One assembler fed the fragments of any frames back to back returns each frame exactly at
      its last fragment, whatever the number of modulo-128 wraps. */
  lemma {:induction false} BleStreamRoundTrip(a: Assembly, frames: seq<Frame>, maxLen: nat)
    requires !a.assembling && maxLen >= INITIALIZATION_HEADER
    requires forall i :: 0 <= i < |frames| ==>
               frames[i].status >= INITIALIZATION_BIT && |frames[i].data| <= MAXIMUM_FRAME_DATA
    ensures Outputs(a, Stream(frames, maxLen)) == Expected(frames, maxLen)
    ensures !After(a, Stream(frames, maxLen)).assembling
  {
    if frames != [] {
      BleStreamRoundTrip(a, Front(frames), maxLen);
      var b := After(a, Stream(Front(frames), maxLen));
      var last := Fragments(Last(frames), maxLen);
      RunAppend(a, Stream(Front(frames), maxLen), last);
      OneFrame(b, Last(frames), maxLen);
    }
  }
}
