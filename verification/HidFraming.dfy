/** CTAPHID packets and messages (transport/ctaphid/encoding.go, decoding.go, raw.go). */
module HidFraming {
  import opened Bytes

  const PACKET_SIZE := 64
  const INIT_DATA := 57
  const CONTINUATION_DATA := 59
  const INIT_BIT := 0x80
  const MAX_PAYLOAD := 7609

  type ChannelID = s: bytes | |s| == 4 witness [0, 0, 0, 0]

  datatype Packet = Packet(cid: ChannelID, command: byte, sequence: byte, length: nat, data: bytes, continuation: bool)

  type Message = seq<Packet>

  datatype HidError = MessageTooLarge | InvalidResponse | ReadFailed

  // ----------------------------------------------------------------- encoding

  function InitPacket(cid: ChannelID, command: byte, length: nat, data: bytes): Packet {
    Packet(cid, command, 0, length, data, false)
  }

  function ContinuationPacket(cid: ChannelID, sequence: byte, data: bytes): Packet {
    Packet(cid, 0, sequence, 0, data, true)
  }

  function Continuations(cid: ChannelID, sequence: byte, data: bytes): Message
    decreases |data|
  {
    if data == [] then []
    else
      var n := Min(|data|, CONTINUATION_DATA);
      [ContinuationPacket(cid, sequence, data[..n])] + Continuations(cid, (sequence + 1) % 256, data[n..])
  }

  function Packets(cid: ChannelID, command: byte, data: bytes): Message {
    var n := Min(|data|, INIT_DATA);
    [InitPacket(cid, command, |data|, data[..n])] + Continuations(cid, 0, data[n..])
  }

  method NewMessage(cid: ChannelID, command: byte, data: bytes) returns (r: Result<Message, HidError>)
    ensures |data| > MAX_PAYLOAD ==> r == Failure(MessageTooLarge)
    ensures |data| <= MAX_PAYLOAD ==> r == Success(Packets(cid, command, data))
  {
    if |data| > MAX_PAYLOAD {
      return Failure(MessageTooLarge);
    }
    var n := Min(|data|, INIT_DATA);
    var msg := [InitPacket(cid, command, |data|, data[..n])];
    if |data| > INIT_DATA {
      var sequence: byte := 0;
      var rest := data[INIT_DATA..];
      while |rest| != 0
        invariant msg + Continuations(cid, sequence, rest) == Packets(cid, command, data)
        decreases |rest|
      {
        var k := Min(|rest|, CONTINUATION_DATA);
        msg := msg + [ContinuationPacket(cid, sequence, rest[..k])];
        rest := rest[k..];
        sequence := (sequence + 1) % 256;
      }
    }
    assert msg + [] == msg;
    return Success(msg);
  }

  function Header(p: Packet): bytes {
    p.cid + if p.continuation then [p.sequence]
            else [p.command % INIT_BIT + INIT_BIT] + PutUint16(p.length % 0x1_0000)
  }

  /** The packet's header and data, padded with zeroes to 64 bytes. */
  function Encode(p: Packet): bytes {
    var used := Header(p) + p.data;
    used + seq(if |used| < PACKET_SIZE then PACKET_SIZE - |used| else 0, _ => 0)
  }

  /** packet.WriteTo */
  method WritePacket(p: Packet) returns (buffer: bytes)
    requires p.length < 0x1_0000
    ensures buffer == Encode(p)
  {
    buffer := p.cid;
    if !p.continuation {
      var commandByte: byte := p.command % INIT_BIT + INIT_BIT;
      buffer := buffer + [commandByte];
      buffer := buffer + PutUint16(p.length);
    } else {
      buffer := buffer + [p.sequence];
    }
    assert buffer == Header(p);
    buffer := buffer + p.data;
    if |buffer| < PACKET_SIZE {
      buffer := buffer + seq(PACKET_SIZE - |buffer|, _ => 0);
    } else {
      assert buffer + [] == buffer;
    }
  }

  function Encodings(m: Message): (r: seq<bytes>)
    ensures |r| == |m|
  {
    seq(|m|, i requires 0 <= i < |m| => Encode(m[i]))
  }

  /** Message.OutputReports: report ID zero and one encoded packet per report. */
  method OutputReports(m: Message) returns (reports: seq<bytes>)
    requires forall i :: 0 <= i < |m| ==> m[i].length < 0x1_0000
    ensures |reports| == |m|
    ensures forall i :: 0 <= i < |m| ==> reports[i] == [0] + Encodings(m)[i]
  {
    reports := [];
    for i := 0 to |m|
      invariant |reports| == i
      invariant forall k :: 0 <= k < i ==> reports[k] == [0] + Encodings(m)[k]
    {
      var packet := WritePacket(m[i]);
      reports := reports + [[0] + packet];
    }
  }

  function PayloadOf(m: Message): bytes {
    if m == [] then [] else PayloadOf(m[..|m| - 1]) + m[|m| - 1].data
  }

  /** Message.Payload */
  method Payload(m: Message) returns (payload: bytes)
    ensures payload == PayloadOf(m)
  {
    payload := [];
    for i := 0 to |m|
      invariant payload == PayloadOf(m[..i])
    {
      assert m[..i + 1][..i] == m[..i];
      payload := payload + m[i].data;
    }
    assert m[..|m|] == m;
  }

  // ----------------------------------------------------------------- decoding

  /** ReadFrom's locals: `Waiting` is total < 0, `Complete` is total == 0. */
  datatype Decoder =
    | Waiting
    | Receiving(cid: ChannelID, sequence: byte, remaining: nat, message: Message)
    | Complete(message: Message)
    | Broken

  type Report = r: bytes | |r| == PACKET_SIZE witness seq(PACKET_SIZE, _ => 0)

  function Progress(cid: ChannelID, sequence: byte, remaining: nat, message: Message): Decoder {
    if remaining == 0 then Complete(message) else Receiving(cid, sequence, remaining, message)
  }

  /** One iteration of ReadFrom's loop on one raw packet. */
  function Feed(d: Decoder, raw: Report): Decoder {
    match d
    case Waiting =>
      if raw[4] >= INIT_BIT then
        var total := Uint16(raw, 5);
        var n := Min(total, INIT_DATA);
        Progress(raw[..4], 0, total - n, [InitPacket(raw[..4], raw[4] % INIT_BIT, total, raw[7..7 + n])])
      else Broken
    case Receiving(cid, sequence, remaining, message) =>
      if raw[4] >= INIT_BIT || raw[..4] != cid || raw[4] != sequence then Broken
      else
        var n := Min(remaining, CONTINUATION_DATA);
        Progress(cid, (sequence + 1) % 256, remaining - n,
                 message + [ContinuationPacket(cid, sequence, raw[5..5 + n])])
    case Complete(_) => d
    case Broken => d
  }

  /** ReadFrom on a list of raw packets: where it stops and how many packets it took. */
  function Decode(d: Decoder, reports: seq<Report>): (r: (Decoder, nat))
    ensures r.1 <= |reports|
    decreases |reports|
  {
    if d.Complete? || d.Broken? || reports == [] then (d, 0)
    else
      var (e, n) := Decode(Feed(d, reports[0]), reports[1..]);
      (e, n + 1)
  }

  /** An io.Reader over the bytes still to come. */
  class ByteReader {
    var input: bytes

    method ReadFull(n: nat) returns (r: Option<bytes>)
      modifies this
      ensures |old(input)| < n ==> r.None? && input == []
      ensures |old(input)| >= n ==> r == Some(old(input)[..n]) && input == old(input)[n..]
    {
      if |input| < n {
        input := [];
        return None;
      }
      r := Some(input[..n]);
      input := input[n..];
    }
  }

  /** ReadFrom on a byte stream: where it stops and the bytes it leaves. */
  function DecodeStream(d: Decoder, input: bytes): (Decoder, bytes)
    decreases |input|
  {
    if d.Complete? || d.Broken? || |input| < PACKET_SIZE then (d, input)
    else DecodeStream(Feed(d, input[..PACKET_SIZE]), input[PACKET_SIZE..])
  }

  /** Message.ReadFrom on an empty message. */
  method ReadFrom(reader: ByteReader) returns (m: Message, r: Result<nat, HidError>)
    modifies reader
    ensures var (d, rest) := DecodeStream(Waiting, old(reader.input));
            match d {
              case Complete(message) =>
                m == message && r == Success(|old(reader.input)| - |rest|) && reader.input == rest
              case Broken => r == Failure(InvalidResponse) && reader.input == rest
              case _ => r == Failure(ReadFailed)
            }
  {
    m := [];
    var bytesRead := 0;
    var expectedCID: ChannelID := [0, 0, 0, 0];
    var expectedSequence: byte := 0;
    var total := -1;
    ghost var d := Waiting;
    while total != 0
      invariant total >= -1
      invariant d == if total < 0 then Waiting else Progress(expectedCID, expectedSequence, total, m)
      invariant total < 0 ==> m == []
      invariant bytesRead + |reader.input| == |old(reader.input)|
      invariant DecodeStream(d, reader.input) == DecodeStream(Waiting, old(reader.input))
      decreases |reader.input|, total
    {
      var rawPacket := reader.ReadFull(PACKET_SIZE);
      if rawPacket.None? {
        return m, Failure(ReadFailed);
      }
      var raw: Report := rawPacket.value;
      bytesRead := bytesRead + PACKET_SIZE;
      var cid: ChannelID := raw[..4];
      var p: Packet;
      d := Feed(d, raw);
      if raw[4] >= INIT_BIT {
        if total >= 0 {
          return m, Failure(InvalidResponse);
        }
        var length := Uint16(raw, 5);
        total := length;
        expectedCID := cid;
        expectedSequence := 0;
        var count := if total > INIT_DATA then INIT_DATA else total;
        p := InitPacket(cid, raw[4] % INIT_BIT, length, raw[7..7 + count]);
        total := total - count;
      } else {
        if total < 0 {
          return m, Failure(InvalidResponse);
        }
        if cid != expectedCID || raw[4] != expectedSequence {
          return m, Failure(InvalidResponse);
        }
        var count := if total > CONTINUATION_DATA then CONTINUATION_DATA else total;
        p := ContinuationPacket(cid, raw[4], raw[5..5 + count]);
        total := total - count;
        expectedSequence := (expectedSequence + 1) % 256;
      }
      m := m + [p];
    }
    return m, Success(bytesRead);
  }

  // ------------------------------------------- the decoder accepts the encoder's image

  /** `m` is what NewMessage returns for some channel, command below 0x80 and payload. */
  ghost predicate InImage(m: Message) {
    && m != []
    && m[0].command < INIT_BIT
    && |PayloadOf(m)| <= MAX_PAYLOAD
    && m == Packets(m[0].cid, m[0].command, PayloadOf(m))
  }

  /** The report starts with the packet's header and data; what follows is padding. */
  ghost predicate Carries(report: bytes, p: Packet) {
    |report| == PACKET_SIZE && Header(p) + p.data <= report
  }

  ghost predicate CarriesAll(reports: seq<bytes>, m: Message) {
    |reports| == |m| && forall i :: 0 <= i < |m| ==> Carries(reports[i], m[i])
  }

  /** `m` is what the encoder emits for `done`, and it would go on with the rest of any payload. */
  ghost predicate Prefixes(m: Message, cid: ChannelID, command: byte, done: bytes, sequence: byte, remaining: nat) {
    forall tail: bytes :: |tail| == remaining ==> GoesOn(m, cid, command, done, sequence, tail)
  }

  ghost predicate GoesOn(m: Message, cid: ChannelID, command: byte, done: bytes, sequence: byte, tail: bytes) {
    Packets(cid, command, done + tail) == m + Continuations(cid, sequence, tail)
  }

  ghost predicate Partway(cid: ChannelID, sequence: byte, remaining: nat, m: Message) {
    && m != [] && remaining > 0
    && m[0].cid == cid && m[0].command < INIT_BIT
    && sequence == |m| - 1 <= 128
    && |PayloadOf(m)| == INIT_DATA + CONTINUATION_DATA * (|m| - 1)
    && Prefixes(m, cid, m[0].command, PayloadOf(m), sequence, remaining)
  }

  /** What has been accepted so far is a prefix of the encoder's packets, whatever follows. */
  ghost predicate OnTrack(d: Decoder) {
    match d
    case Waiting => true
    case Receiving(cid, sequence, remaining, m) => Partway(cid, sequence, remaining, m)
    case Complete(m) => InImage(m)
    case Broken => true
  }

  /** The accepted packets are the ones carried by the reports taken so far. */
  ghost predicate Carried(d: Decoder, reports: seq<Report>) {
    match d
    case Waiting => reports == []
    case Receiving(_, _, _, m) => CarriesAll(reports, m)
    case Complete(m) => CarriesAll(reports, m)
    case Broken => true
  }

  lemma PayloadSnoc(m: Message, p: Packet)
    ensures PayloadOf(m + [p]) == PayloadOf(m) + p.data
  {
    assert (m + [p])[..|m|] == m;
  }

  lemma FirstPacketOnTrack(raw: Report)
    requires raw[4] >= INIT_BIT
    ensures OnTrack(Feed(Waiting, raw))
  {
    var total := Uint16(raw, 5);
    var n := Min(total, INIT_DATA);
    var p := InitPacket(raw[..4], raw[4] % INIT_BIT, total, raw[7..7 + n]);
    if total <= INIT_DATA {
      OnlyPacket(p);
      assert Feed(Waiting, raw) == Complete([p]);
    } else {
      FirstOfMany(p);
      assert Feed(Waiting, raw) == Receiving(p.cid, 0, total - n, [p]);
    }
  }

  lemma OnePacket(p: Packet)
    ensures PayloadOf([p]) == p.data
  {
    PayloadSnoc([], p);
    assert [] + [p] == [p] && [] + p.data == p.data;
  }

  lemma OnlyPacket(p: Packet)
    requires !p.continuation && p.sequence == 0 && p.command < INIT_BIT && p.length == |p.data| <= INIT_DATA
    ensures InImage([p])
  {
    OnePacket(p);
    assert p.data[..|p.data|] == p.data && p.data[|p.data|..] == [];
  }

  lemma FirstOfMany(p: Packet)
    requires !p.continuation && p.sequence == 0 && p.command < INIT_BIT && |p.data| == INIT_DATA < p.length
    ensures Partway(p.cid, 0, p.length - INIT_DATA, [p])
  {
    OnePacket(p);
    forall tail: bytes | |tail| == p.length - INIT_DATA ensures GoesOn([p], p.cid, p.command, p.data, 0, tail) {
      assert (p.data + tail)[..INIT_DATA] == p.data && (p.data + tail)[INIT_DATA..] == tail;
    }
  }

  lemma LastContinuation(cid: ChannelID, sequence: byte, chunk: bytes)
    requires 0 < |chunk| <= CONTINUATION_DATA
    ensures Continuations(cid, sequence, chunk) == [ContinuationPacket(cid, sequence, chunk)]
  {
    assert chunk[..|chunk|] == chunk;
  }

  lemma FullContinuation(cid: ChannelID, sequence: byte, chunk: bytes, tail: bytes)
    requires |chunk| == CONTINUATION_DATA && sequence < 128
    ensures Continuations(cid, sequence, chunk + tail)
         == [ContinuationPacket(cid, sequence, chunk)] + Continuations(cid, sequence + 1, tail)
  {
    assert (chunk + tail)[..CONTINUATION_DATA] == chunk && (chunk + tail)[CONTINUATION_DATA..] == tail;
  }

  lemma LastPacketCompletes(m: Message, cid: ChannelID, sequence: byte, chunk: bytes)
    requires Partway(cid, sequence, |chunk|, m) && |chunk| <= CONTINUATION_DATA && sequence < 128
    ensures InImage(m + [ContinuationPacket(cid, sequence, chunk)])
  {
    PayloadSnoc(m, ContinuationPacket(cid, sequence, chunk));
    LastContinuation(cid, sequence, chunk);
    assert GoesOn(m, cid, m[0].command, PayloadOf(m), sequence, chunk);
  }

  lemma GoesOnAfterFull(m: Message, cid: ChannelID, command: byte, sequence: byte, chunk: bytes, tail: bytes)
    requires |chunk| == CONTINUATION_DATA && sequence < 128
    requires GoesOn(m, cid, command, PayloadOf(m), sequence, chunk + tail)
    ensures GoesOn(m + [ContinuationPacket(cid, sequence, chunk)], cid, command, PayloadOf(m) + chunk, sequence + 1, tail)
  {
    FullContinuation(cid, sequence, chunk, tail);
    assert PayloadOf(m) + chunk + tail == PayloadOf(m) + (chunk + tail);
  }

  lemma FullPacketExtends(m: Message, cid: ChannelID, sequence: byte, remaining: nat, chunk: bytes)
    requires Partway(cid, sequence, remaining, m)
    requires |chunk| == CONTINUATION_DATA < remaining && sequence < 128
    ensures Partway(cid, sequence + 1, remaining - CONTINUATION_DATA, m + [ContinuationPacket(cid, sequence, chunk)])
  {
    var m' := m + [ContinuationPacket(cid, sequence, chunk)];
    PayloadSnoc(m, ContinuationPacket(cid, sequence, chunk));
    forall tail: bytes | |tail| == remaining - CONTINUATION_DATA
      ensures GoesOn(m', cid, m[0].command, PayloadOf(m'), sequence + 1, tail)
    {
      assert GoesOn(m, cid, m[0].command, PayloadOf(m), sequence, chunk + tail);
      GoesOnAfterFull(m, cid, m[0].command, sequence, chunk, tail);
    }
  }

  /** What the decoder makes of the continuation it waits for. */
  lemma FeedContinuation(d: Decoder, raw: Report)
    requires d.Receiving? && raw[4] < INIT_BIT && raw[..4] == d.cid && raw[4] == d.sequence && d.remaining > 0
    ensures var n := Min(d.remaining, CONTINUATION_DATA);
            var m := d.message + [ContinuationPacket(d.cid, d.sequence, raw[5..5 + n])];
            Feed(d, raw) == if n == d.remaining then Complete(m)
                            else Receiving(d.cid, (d.sequence + 1) % 256, d.remaining - n, m)
  {}

  lemma LastOnTrack(d: Decoder, raw: Report)
    requires d.Receiving? && Partway(d.cid, d.sequence, d.remaining, d.message) && d.remaining <= CONTINUATION_DATA
    requires raw[4] < INIT_BIT && raw[..4] == d.cid && raw[4] == d.sequence
    ensures Feed(d, raw).Complete? && InImage(Feed(d, raw).message)
  {
    FeedContinuation(d, raw);
    LastPacketCompletes(d.message, d.cid, d.sequence, raw[5..5 + d.remaining]);
  }

  lemma FullOnTrack(d: Decoder, raw: Report)
    requires d.Receiving? && Partway(d.cid, d.sequence, d.remaining, d.message) && d.remaining > CONTINUATION_DATA
    requires raw[4] < INIT_BIT && raw[..4] == d.cid && raw[4] == d.sequence
    ensures var e := Feed(d, raw); e.Receiving? && Partway(e.cid, e.sequence, e.remaining, e.message)
  {
    FeedContinuation(d, raw);
    FullPacketExtends(d.message, d.cid, d.sequence, d.remaining, raw[5..5 + CONTINUATION_DATA]);
  }

  lemma ContinuationOnTrack(d: Decoder, raw: Report)
    requires d.Receiving? && OnTrack(d)
    requires raw[4] < INIT_BIT && raw[..4] == d.cid && raw[4] == d.sequence
    ensures OnTrack(Feed(d, raw))
  {
    if d.remaining <= CONTINUATION_DATA {
      LastOnTrack(d, raw);
    } else {
      FullOnTrack(d, raw);
    }
  }

  /** Every step of the decoder keeps it on the encoder's track; the 129th continuation would
      need sequence 128, which is an initialization packet, so no longer payload completes. */
  lemma FeedOnTrack(d: Decoder, raw: Report)
    requires OnTrack(d)
    ensures OnTrack(Feed(d, raw))
  {
    if d.Waiting? && raw[4] >= INIT_BIT {
      FirstPacketOnTrack(raw);
    } else if d.Receiving? && raw[4] < INIT_BIT && raw[..4] == d.cid && raw[4] == d.sequence {
      ContinuationOnTrack(d, raw);
    } else {
      assert Feed(d, raw) == Broken || Feed(d, raw) == d;
    }
  }

  lemma FeedCarried(d: Decoder, reports: seq<Report>, raw: Report)
    requires Carried(d, reports) && (d.Waiting? || d.Receiving?)
    ensures Carried(Feed(d, raw), reports + [raw])
  {
    if d.Waiting? && raw[4] >= INIT_BIT {
      var n := Min(Uint16(raw, 5), INIT_DATA);
      var p := InitPacket(raw[..4], raw[4] % INIT_BIT, Uint16(raw, 5), raw[7..7 + n]);
      assert Header(p) + p.data == raw[..7 + n];
    } else if d.Receiving? && raw[4] < INIT_BIT && raw[..4] == d.cid && raw[4] == d.sequence {
      var n := Min(d.remaining, CONTINUATION_DATA);
      var p := ContinuationPacket(d.cid, d.sequence, raw[5..5 + n]);
      assert Header(p) + p.data == raw[..5 + n];
    }
  }

  lemma {:induction false} DecodeOnTrack(d: Decoder, reports: seq<Report>)
    requires OnTrack(d)
    ensures OnTrack(Decode(d, reports).0)
    decreases |reports|
  {
    if !d.Complete? && !d.Broken? && reports != [] {
      FeedOnTrack(d, reports[0]);
      DecodeOnTrack(Feed(d, reports[0]), reports[1..]);
    }
  }

  lemma {:induction false} DecodeCarried(d: Decoder, done: seq<Report>, reports: seq<Report>)
    requires Carried(d, done)
    ensures Carried(Decode(d, reports).0, done + reports[..Decode(d, reports).1])
    decreases |reports|
  {
    if d.Complete? || d.Broken? || reports == [] {
      assert done + reports[..0] == done;
    } else {
      var n := Decode(d, reports).1;
      FeedCarried(d, done, reports[0]);
      DecodeCarried(Feed(d, reports[0]), done + [reports[0]], reports[1..]);
      assert done + [reports[0]] + reports[1..][..n - 1] == done + reports[..n];
    }
  }

  /** Whatever the stream, a message that ReadFrom accepts is NewMessage's own, packet for packet,
      and it is what the packets taken carried. */
  lemma DecoderSound(reports: seq<Report>)
    ensures var (d, n) := Decode(Waiting, reports);
            d.Complete? ==> InImage(d.message) && CarriesAll(reports[..n], d.message)
  {
    DecodeOnTrack(Waiting, reports);
    DecodeCarried(Waiting, [], reports);
    var n := Decode(Waiting, reports).1;
    assert [] + reports[..n] == reports[..n];
  }

  // ------------------------------------------------ every image is decoded to itself

  /** A report that carries `p` holds its fields at the offsets ReadFrom looks at. */
  lemma CarriedFields(report: Report, p: Packet)
    requires Carries(report, p)
    requires p.continuation ==> p.sequence < INIT_BIT
    requires !p.continuation ==> p.length < 0x1_0000
    ensures report[..4] == p.cid
    ensures p.continuation ==> report[4] == p.sequence && 5 + |p.data| <= PACKET_SIZE && report[5..5 + |p.data|] == p.data
    ensures !p.continuation ==> report[4] == p.command % INIT_BIT + INIT_BIT
    ensures !p.continuation ==>
              Uint16(report, 5) == p.length && 7 + |p.data| <= PACKET_SIZE && report[7..7 + |p.data|] == p.data
  {
    if p.continuation {
      SplitReport(report, p.cid + [p.sequence], p.data);
      assert (p.cid + [p.sequence])[..4] == p.cid;
    } else {
      var command: byte := p.command % INIT_BIT + INIT_BIT;
      var length := PutUint16(p.length);
      var h := p.cid + [command] + length;
      assert Header(p) == h;
      SplitReport(report, h, p.data);
      assert h[..4] == p.cid && h[4] == command && h[5] == length[0] && h[6] == length[1];
    }
  }

  lemma SplitReport(report: Report, h: bytes, data: bytes)
    requires h + data <= report
    ensures |h| + |data| <= PACKET_SIZE
    ensures report[|h|..|h| + |data|] == data
    ensures report[..|h|] == h && forall k :: 0 <= k < |h| ==> report[k] == h[k]
    ensures |h| >= 4 ==> report[..4] == h[..4]
  {
    assert report[..|h| + |data|] == h + data;
    assert report[..|h|] == (h + data)[..|h|] == h;
    assert report[|h|..|h| + |data|] == (h + data)[|h|..] == data;
    assert |h| >= 4 ==> report[..4] == report[..|h|][..4];
  }

  lemma {:induction false} DecodeContinuations(cid: ChannelID, sequence: byte, data: bytes, m: Message, reports: seq<Report>)
    requires data != [] && |data| <= CONTINUATION_DATA * (INIT_BIT - sequence)
    requires |Continuations(cid, sequence, data)| <= |reports|
    requires CarriesAll(reports[..|Continuations(cid, sequence, data)|], Continuations(cid, sequence, data))
    ensures Decode(Receiving(cid, sequence, |data|, m), reports)
         == (Complete(m + Continuations(cid, sequence, data)), |Continuations(cid, sequence, data)|)
    decreases |data|
  {
    var all := Continuations(cid, sequence, data);
    var n := Min(|data|, CONTINUATION_DATA);
    var p := ContinuationPacket(cid, sequence, data[..n]);
    var tail := Continuations(cid, (sequence + 1) % 256, data[n..]);
    assert Carries(reports[..|all|][0], all[0]);
    CarriedFields(reports[0], p);
    var d := Feed(Receiving(cid, sequence, |data|, m), reports[0]);
    if n == |data| {
      assert tail == [] && all == [p];
      assert d == Complete(m + [p]);
    } else {
      assert m + [p] + tail == m + all;
      CarriesTail(reports[..|all|], all);
      assert |all| == 1 + |tail| && all[1..] == tail;
      assert reports[..|all|][1..] == reports[1..][..|tail|];
      DecodeContinuations(cid, sequence + 1, data[n..], m + [p], reports[1..]);
    }
  }

  lemma CarriesTail(reports: seq<bytes>, m: Message)
    requires CarriesAll(reports, m) && m != []
    ensures CarriesAll(reports[1..], m[1..])
  {}

  lemma FirstPacketDecoded(raw: Report, cid: ChannelID, command: byte, data: bytes)
    requires command < INIT_BIT && |data| <= MAX_PAYLOAD
    requires Carries(raw, Packets(cid, command, data)[0])
    ensures var n := Min(|data|, INIT_DATA);
            Feed(Waiting, raw) == Progress(cid, 0, |data| - n, [Packets(cid, command, data)[0]])
  {
    CarriedFields(raw, Packets(cid, command, data)[0]);
  }

  lemma TailCarried(cid: ChannelID, command: byte, data: bytes, reports: seq<Report>)
    requires |Packets(cid, command, data)| <= |reports|
    requires CarriesAll(reports[..|Packets(cid, command, data)|], Packets(cid, command, data))
    ensures Carries(reports[0], Packets(cid, command, data)[0])
    ensures var tail := Continuations(cid, 0, data[Min(|data|, INIT_DATA)..]);
            && Packets(cid, command, data) == [Packets(cid, command, data)[0]] + tail
            && |tail| <= |reports[1..]| && CarriesAll(reports[1..][..|tail|], tail)
  {
    var all := Packets(cid, command, data);
    assert reports[..|all|][0] == reports[0];
    CarriesTail(reports[..|all|], all);
    assert all[1..] == Continuations(cid, 0, data[Min(|data|, INIT_DATA)..]);
    assert reports[..|all|][1..] == reports[1..][..|all| - 1];
  }

  lemma DecodeShort(cid: ChannelID, command: byte, data: bytes, reports: seq<Report>)
    requires command < INIT_BIT && |data| <= INIT_DATA && reports != []
    requires Carries(reports[0], Packets(cid, command, data)[0])
    ensures Decode(Waiting, reports) == (Complete(Packets(cid, command, data)), 1) && |Packets(cid, command, data)| == 1
  {
    FirstPacketDecoded(reports[0], cid, command, data);
    assert Packets(cid, command, data) == [Packets(cid, command, data)[0]];
  }

  lemma DecodeLong(cid: ChannelID, command: byte, data: bytes, reports: seq<Report>)
    requires command < INIT_BIT && INIT_DATA < |data| <= MAX_PAYLOAD && reports != []
    requires Carries(reports[0], Packets(cid, command, data)[0])
    requires var tail := Continuations(cid, 0, data[INIT_DATA..]); |tail| <= |reports[1..]| && CarriesAll(reports[1..][..|tail|], tail)
    ensures Decode(Waiting, reports) == (Complete(Packets(cid, command, data)), |Packets(cid, command, data)|)
  {
    FirstPacketDecoded(reports[0], cid, command, data);
    var first := Packets(cid, command, data)[0];
    DecodeContinuations(cid, 0, data[INIT_DATA..], [first], reports[1..]);
    assert Packets(cid, command, data) == [first] + Continuations(cid, 0, data[INIT_DATA..]);
  }

  /** Reports that carry an encoded message, with any padding and anything behind them, decode to
      exactly that message and leave exactly what is behind. */
  lemma DecoderComplete(cid: ChannelID, command: byte, data: bytes, reports: seq<Report>)
    requires command < INIT_BIT && |data| <= MAX_PAYLOAD
    requires |Packets(cid, command, data)| <= |reports|
    requires CarriesAll(reports[..|Packets(cid, command, data)|], Packets(cid, command, data))
    ensures Decode(Waiting, reports) == (Complete(Packets(cid, command, data)), |Packets(cid, command, data)|)
  {
    TailCarried(cid, command, data, reports);
    if |data| > INIT_DATA {
      DecodeLong(cid, command, data, reports);
    } else {
      DecodeShort(cid, command, data, reports);
    }
  }

  /** The accepted messages are exactly the encoder's image. */
  lemma DecoderExact(reports: seq<Report>, m: Message, n: nat)
    ensures Decode(Waiting, reports) == (Complete(m), n)
        <==> n <= |reports| && InImage(m) && CarriesAll(reports[..n], m)
  {
    DecoderSound(reports);
    if n <= |reports| && InImage(m) && CarriesAll(reports[..n], m) {
      DecoderComplete(m[0].cid, m[0].command, PayloadOf(m), reports);
    }
  }

  /** In particular no message with a declared length above 7609 is ever accepted. */
  lemma AcceptedLength(reports: seq<Report>)
    ensures var d := Decode(Waiting, reports).0;
            d.Complete? ==> d.message != [] && d.message[0].length == |PayloadOf(d.message)| <= MAX_PAYLOAD
  {
    DecoderSound(reports);
  }

  // ------------------------------------------------------------------------- streams

  datatype Content = Content(cid: ChannelID, command: byte, data: bytes)

  predicate Encodable(c: Content) {
    c.command < 0x80 && |c.data| <= 7609
  }

  function PacketsOf(c: Content): Message {
    Packets(c.cid, c.command, c.data)
  }

  lemma {:induction false} ContinuationsWellFormed(cid: ChannelID, sequence: byte, data: bytes)
    ensures forall p :: p in Continuations(cid, sequence, data) ==>
              p.continuation && 0 < |p.data| <= CONTINUATION_DATA && |Encode(p)| == PACKET_SIZE
    decreases |data|
  {
    if data != [] {
      ContinuationsWellFormed(cid, (sequence + 1) % 256, data[Min(|data|, CONTINUATION_DATA)..]);
    }
  }

  lemma EncodingsCarry(c: Content)
    requires Encodable(c)
    ensures forall i :: 0 <= i < |PacketsOf(c)| ==> |Encodings(PacketsOf(c))[i]| == PACKET_SIZE
    ensures CarriesAll(Encodings(PacketsOf(c)), PacketsOf(c))
  {
    var n := Min(|c.data|, INIT_DATA);
    ContinuationsWellFormed(c.cid, 0, c.data[n..]);
    forall i | 0 <= i < |PacketsOf(c)|
      ensures |Encodings(PacketsOf(c))[i]| == PACKET_SIZE && Carries(Encodings(PacketsOf(c))[i], PacketsOf(c)[i])
    {
      assert i > 0 ==> PacketsOf(c)[i] in Continuations(c.cid, 0, c.data[n..]);
    }
  }

  /** There are just enough continuations for the data, all full but the last. */
  lemma {:induction false} ContinuationCount(cid: ChannelID, sequence: byte, data: bytes)
    ensures var n := |Continuations(cid, sequence, data)|;
            if n == 0 then data == [] else CONTINUATION_DATA * (n - 1) < |data| <= CONTINUATION_DATA * n
    decreases |data|
  {
    if data != [] {
      var n := Min(|data|, CONTINUATION_DATA);
      ContinuationCount(cid, (sequence + 1) % 256, data[n..]);
    }
  }

  lemma {:induction false} ContinuationAt(cid: ChannelID, sequence: byte, data: bytes, i: nat)
    requires i < |Continuations(cid, sequence, data)|
    ensures CONTINUATION_DATA * i < |data|
    ensures Continuations(cid, sequence, data)[i]
         == ContinuationPacket(cid, (sequence + i) % 256, data[CONTINUATION_DATA * i..Min(CONTINUATION_DATA * (i + 1), |data|)])
    decreases |data|
  {
    ContinuationCount(cid, sequence, data);
    if i > 0 {
      var rest := data[CONTINUATION_DATA..];
      ContinuationStep(cid, sequence, data, i);
      ContinuationAt(cid, (sequence + 1) % 256, rest, i - 1);
      LaterSequence(sequence, i);
      Skipped(data, CONTINUATION_DATA, CONTINUATION_DATA * (i - 1), Min(CONTINUATION_DATA * i, |rest|));
    }
  }

  lemma ContinuationStep(cid: ChannelID, sequence: byte, data: bytes, i: nat)
    requires 0 < i < |Continuations(cid, sequence, data)|
    ensures |data| > CONTINUATION_DATA
    ensures i - 1 < |Continuations(cid, (sequence + 1) % 256, data[CONTINUATION_DATA..])|
    ensures Continuations(cid, sequence, data)[i] == Continuations(cid, (sequence + 1) % 256, data[CONTINUATION_DATA..])[i - 1]
  {
    ContinuationCount(cid, sequence, data);
  }

  lemma LaterSequence(sequence: byte, i: nat)
    requires i > 0
    ensures ((sequence as int + 1) % 256 + (i - 1)) % 256 == (sequence + i) % 256
  {}

  lemma Skipped(data: bytes, n: nat, a: nat, b: nat)
    requires n + a <= n + b <= |data|
    ensures data[n..][a..b] == data[n + a..n + b]
  {
    var inner, outer := data[n..][a..b], data[n + a..n + b];
    assert |inner| == |outer| && forall k :: 0 <= k < |inner| ==> inner[k] == outer[k];
  }

  /** Sixty-four bytes: the header, the data, and nothing but zeroes behind them. */
  lemma EncodedLayout(p: Packet)
    requires |Header(p)| + |p.data| <= PACKET_SIZE && p.command < INIT_BIT && p.length < 0x1_0000
    ensures |Encode(p)| == 64 && Encode(p)[..4] == p.cid
    ensures p.continuation ==> Encode(p)[4] == p.sequence && Encode(p)[5..5 + |p.data|] == p.data
    ensures !p.continuation ==>
              && Encode(p)[4] == p.command + 0x80
              && Encode(p)[5] as int * 0x100 + Encode(p)[6] as int == p.length && Encode(p)[7..7 + |p.data|] == p.data
    ensures forall k :: (if p.continuation then 5 else 7) + |p.data| <= k < 64 ==> Encode(p)[k] == 0
  {
    assert Header(p)[..4] == p.cid;
  }

  /** A message on the wire, byte for byte: its packets are just enough for the data, the first says
      whose message it is, what it is and how long, and the others are numbered from zero. */
  lemma WireLayout(c: Content, i: nat)
    requires Encodable(c) && i < |PacketsOf(c)|
    ensures var n := |PacketsOf(c)|; n > 1 ==> 57 + 59 * (n - 2) < |c.data| <= 57 + 59 * (n - 1)
    ensures |PacketsOf(c)| == 1 <==> |c.data| <= 57
    ensures |Encode(PacketsOf(c)[i])| == 64 && Encode(PacketsOf(c)[i])[..4] == c.cid
    ensures var e, n := Encode(PacketsOf(c)[0]), Min(|c.data|, 57);
            && |e| == 64 && e[4] == c.command + 0x80 && e[5] as int * 0x100 + e[6] as int == |c.data|
            && e[7..7 + n] == c.data[..n] && forall k :: 7 + n <= k < 64 ==> e[k] == 0
    ensures i > 0 ==>
              var start := 57 + 59 * (i - 1);
              && start < |c.data|
              && var e, n := Encode(PacketsOf(c)[i]), Min(|c.data| - start, 59);
                 && e[4] == i - 1 && e[5..5 + n] == c.data[start..start + n]
                 && forall k :: 5 + n <= k < 64 ==> e[k] == 0
  {
    ContinuationCount(c.cid, 0, c.data[Min(|c.data|, INIT_DATA)..]);
    EncodedLayout(PacketsOf(c)[0]);
    if i > 0 {
      LaterPacket(c, i);
      EncodedLayout(PacketsOf(c)[i]);
    }
  }

  lemma LaterPacket(c: Content, i: nat)
    requires Encodable(c) && 0 < i < |PacketsOf(c)|
    ensures var start := INIT_DATA + CONTINUATION_DATA * (i - 1);
            && start < |c.data| && i <= 128
            && PacketsOf(c)[i] == ContinuationPacket(c.cid, i - 1, c.data[start..start + Min(|c.data| - start, CONTINUATION_DATA)])
  {
    var rest := c.data[INIT_DATA..];
    var start := CONTINUATION_DATA * (i - 1);
    ContinuationCount(c.cid, 0, rest);
    ContinuationAt(c.cid, 0, rest, i - 1);
    Skipped(c.data, INIT_DATA, start, Min(CONTINUATION_DATA * i, |rest|));
  }

  /** The bytes of all reports of all messages, report identifiers stripped. */
  function Wire(contents: seq<Content>): bytes {
    if contents == [] then [] else Flatten(Encodings(PacketsOf(contents[0]))) + Wire(contents[1..])
  }

  /** ReadFrom called `count` times in a row on one stream. */
  function ReadMany(input: bytes, count: nat): seq<Decoder>
    decreases count
  {
    if count == 0 then []
    else
      var (d, rest) := DecodeStream(Waiting, input);
      [d] + ReadMany(rest, count - 1)
  }

  lemma {:induction false} StreamOfReports(d: Decoder, reports: seq<Report>, rest: bytes)
    requires Decode(d, reports).0.Complete? || Decode(d, reports).0.Broken?
    requires Decode(d, reports).1 == |reports|
    ensures DecodeStream(d, Flatten(reports) + rest) == (Decode(d, reports).0, rest)
    decreases |reports|
  {
    if reports == [] {
      assert Flatten(reports) + rest == rest;
    } else {
      var input := Flatten(reports) + rest;
      assert input == reports[0] + (Flatten(reports[1..]) + rest);
      assert input[..PACKET_SIZE] == reports[0] && input[PACKET_SIZE..] == Flatten(reports[1..]) + rest;
      StreamOfReports(Feed(d, reports[0]), reports[1..], rest);
    }
  }

  lemma OneMessage(c: Content, rest: bytes)
    requires Encodable(c)
    ensures DecodeStream(Waiting, Flatten(Encodings(PacketsOf(c))) + rest) == (Complete(PacketsOf(c)), rest)
    ensures |Flatten(Encodings(PacketsOf(c)))| == PACKET_SIZE * |PacketsOf(c)|
  {
    EncodingsCarry(c);
    var reports: seq<Report> := Encodings(PacketsOf(c));
    assert reports[..|PacketsOf(c)|] == reports;
    DecoderComplete(c.cid, c.command, c.data, reports);
    StreamOfReports(Waiting, reports, rest);
    FlattenReports(reports);
  }

  lemma {:induction false} FlattenReports(reports: seq<Report>)
    ensures |Flatten(reports)| == PACKET_SIZE * |reports|
  {
    if reports != [] {
      FlattenReports(reports[1..]);
    }
  }

  /** Any messages written back to back are read back one by one, whole. */
  lemma {:induction false} HidStreamRoundTrip(contents: seq<Content>)
    requires forall i :: 0 <= i < |contents| ==> Encodable(contents[i])
    ensures ReadMany(Wire(contents), |contents|) == seq(|contents|, i requires 0 <= i < |contents| => Complete(PacketsOf(contents[i])))
  {
    if contents != [] {
      OneMessage(contents[0], Wire(contents[1..]));
      HidStreamRoundTrip(contents[1..]);
      assert ReadMany(Wire(contents), |contents|)
          == [Complete(PacketsOf(contents[0]))] + ReadMany(Wire(contents[1..]), |contents| - 1);
    }
  }

  /** CID, command, declared length and payload of a decoded message are the ones encoded. */
  lemma ContentRecovered(c: Content)
    requires Encodable(c)
    ensures PacketsOf(c)[0].cid == c.cid && PacketsOf(c)[0].command == c.command
    ensures PacketsOf(c)[0].length == |c.data| && PayloadOf(PacketsOf(c)) == c.data
  {
    var n := Min(|c.data|, INIT_DATA);
    var first := PacketsOf(c)[0];
    assert [first] == [] + [first];
    PayloadSnoc([], first);
    ContinuationsPayload([first], c.cid, 0, c.data[n..]);
    assert c.data[..n] + c.data[n..] == c.data;
  }

  lemma {:induction false} ContinuationsPayload(m: Message, cid: ChannelID, sequence: byte, data: bytes)
    ensures PayloadOf(m + Continuations(cid, sequence, data)) == PayloadOf(m) + data
    decreases |data|
  {
    if data == [] {
      assert m + [] == m;
    } else {
      var n := Min(|data|, CONTINUATION_DATA);
      var p := ContinuationPacket(cid, sequence, data[..n]);
      assert m + Continuations(cid, sequence, data) == (m + [p]) + Continuations(cid, (sequence + 1) % 256, data[n..]);
      PayloadSnoc(m, p);
      ContinuationsPayload(m + [p], cid, (sequence + 1) % 256, data[n..]);
      Rejoin(PayloadOf(m), data, n);
    }
  }
}
