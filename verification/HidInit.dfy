/** Allocating a CTAPHID channel (transport/ctaphid/commands.go:105-169): every client's INIT response
    comes on the broadcast channel, and only the nonce tells whose it is. */
module HidInit {
  import opened Bytes
  import opened HidFraming
  import opened HidChannel

  const CTAPHID_INIT := 0x06
  const NONCE_SIZE := 8
  const RESPONSE_SIZE := 17

  datatype InitResponse = InitResponse(nonce: bytes, cid: ChannelID, version: bytes, capabilities: byte)

  datatype InitOutcome =
    | Allocated(response: InitResponse) | InitMalformed | InitError(code: byte) | InitUnexpected | InitReadFailed

  function Parse(data: bytes): InitResponse
    requires |data| >= RESPONSE_SIZE
  {
    InitResponse(data[..8], data[8..12], data[12..16], data[16])
  }

  /** What one message means to the waiting Init; None means skip it. */
  function InitAnswer(m: Message, cid: ChannelID, nonce: bytes): Option<InitOutcome> {
    if m == [] then Some(InitMalformed)
    else if m[0].cid != cid || m[0].command == CTAPHID_KEEPALIVE then None
    else if m[0].command == CTAPHID_ERROR then Some(if m[0].data == [] then InitMalformed else InitError(m[0].data[0]))
    else if m[0].command != CTAPHID_INIT then Some(InitUnexpected)
    else if |m[0].data| < RESPONSE_SIZE then Some(InitMalformed)
    else if m[0].data[..NONCE_SIZE] != nonce then None
    else Some(Allocated(Parse(m[0].data)))
  }

  function InitFrom(cid: ChannelID, nonce: bytes, input: bytes): (InitOutcome, bytes)
    decreases |input|
  {
    ConsumesPackets(Waiting, input);
    var (d, rest) := DecodeStream(Waiting, input);
    match d
    case Complete(m) =>
      var answer := InitAnswer(m, cid, nonce);
      if answer.Some? then (answer.value, rest) else InitFrom(cid, nonce, rest)
    case Broken => (InitMalformed, rest)
    case _ => (InitReadFailed, rest)
  }

  /** The read loop of Init. */
  method ReadInit(reader: ByteReader, cid: ChannelID, nonce: bytes) returns (r: InitOutcome)
    modifies reader
    ensures r == InitFrom(cid, nonce, old(reader.input)).0
    ensures r != InitReadFailed ==> reader.input == InitFrom(cid, nonce, old(reader.input)).1
  {
    while true
      invariant InitFrom(cid, nonce, reader.input) == InitFrom(cid, nonce, old(reader.input))
      decreases |reader.input|
    {
      ConsumesPackets(Waiting, reader.input);
      var m, read := ReadFrom(reader);
      if read.Failure? {
        return if read.error == ReadFailed then InitReadFailed else InitMalformed;
      }
      if |m| < 1 {
        return InitMalformed;
      }
      var p := m[0];
      if p.cid != cid {
        continue;
      }
      if p.command == CTAPHID_INIT {
        if |p.data| < RESPONSE_SIZE {
          return InitMalformed;
        }
        if p.data[..NONCE_SIZE] != nonce {
          continue;
        }
        return Allocated(Parse(p.data));
      }
      if p.command == CTAPHID_ERROR {
        return if |p.data| < 1 then InitMalformed else InitError(p.data[0]);
      }
      if p.command != CTAPHID_KEEPALIVE {
        return InitUnexpected;
      }
    }
  }

  /** A message the allocation passes over: another channel's, a keepalive, or another client's response. */
  predicate Foreign(c: Content, cid: ChannelID, nonce: bytes) {
    && Encodable(c)
    && (c.cid != cid || c.command == 0x3b || (c.command == 0x06 && |c.data| >= 17 && c.data[..8] != nonce))
  }

  predicate Own(c: Content, cid: ChannelID, nonce: bytes) {
    Encodable(c) && c.cid == cid && c.command == 0x06 && |c.data| >= 17 && c.data[..8] == nonce
  }

  /** What a message on the broadcast channel that is not passed over says to the waiting client. */
  ghost predicate Tells(c: Content, outcome: InitOutcome) {
    match c.command
    case 0x3f => outcome == (if c.data == [] then InitMalformed else InitError(c.data[0]))
    case 0x06 =>
      if |c.data| < 17 then outcome == InitMalformed
      else
        outcome.Allocated?
        && var r := outcome.response;
           r.nonce == c.data[..8] && r.cid == c.data[8..12] && r.version == c.data[12..16] && r.capabilities == c.data[16]
    case _ => outcome == InitUnexpected
  }

  lemma FirstPacket(c: Content)
    requires Encodable(c)
    ensures var p := PacketsOf(c)[0];
            && p.cid == c.cid && p.command == c.command && (|c.data| >= 17 <==> |p.data| >= 17)
            && (|c.data| >= 17 ==> p.data[..17] == c.data[..17])
            && (|c.data| == 0 <==> |p.data| == 0) && (|c.data| > 0 ==> p.data[0] == c.data[0])
  {}

  lemma Prefixes(s: bytes, t: bytes)
    requires |s| >= 17 && |t| >= 17 && s[..17] == t[..17]
    ensures s[..8] == t[..8] && s[8..12] == t[8..12] && s[12..16] == t[12..16] && s[16] == t[16]
  {
    var used := s[..17];
    assert s[..8] == used[..8] && s[8..12] == used[8..12] && s[12..16] == used[12..16] && s[16] == used[16];
    assert t[..8] == used[..8] && t[8..12] == used[8..12] && t[12..16] == used[12..16] && t[16] == used[16];
  }

  /** Every message is passed over or tells something, whatever its command. */
  lemma MessageTells(c: Content, cid: ChannelID, nonce: bytes)
    requires Encodable(c) && |nonce| == 8
    ensures var answer := InitAnswer(PacketsOf(c), cid, nonce);
            && (answer == None <==> Foreign(c, cid, nonce)) && (answer.Some? ==> Tells(c, answer.value))
  {
    FirstPacket(c);
    if |c.data| >= 17 {
      Prefixes(PacketsOf(c)[0].data, c.data);
    }
  }

  /** Whatever other clients' responses, keepalives and other channels' messages come first, the first
      message that is none of them decides, and what follows it is left unread. */
  lemma {:induction false} FirstTellingMessage(cid: ChannelID, nonce: bytes, foreign: seq<Content>, c: Content, rest: bytes)
    requires |nonce| == 8 && Encodable(c) && !Foreign(c, cid, nonce)
    requires forall f :: f in foreign ==> Foreign(f, cid, nonce)
    ensures var (outcome, left) := InitFrom(cid, nonce, Wire(foreign + [c]) + rest); left == rest && Tells(c, outcome)
    decreases |foreign|
  {
    if foreign == [] {
      assert foreign + [c] == [c] && [c][1..] == [];
      assert Wire([c]) == Flatten(Encodings(PacketsOf(c)));
      OneMessage(c, rest);
      MessageTells(c, cid, nonce);
    } else {
      var first, later := foreign[0], Wire(foreign[1..] + [c]);
      assert (foreign + [c])[1..] == foreign[1..] + [c];
      assert first in foreign;
      OneMessage(first, later + rest);
      Associate(Flatten(Encodings(PacketsOf(first))), later, rest);
      MessageTells(first, cid, nonce);
      FirstTellingMessage(cid, nonce, foreign[1..], c, rest);
    }
  }

  /** When nothing decides, a stream that ends is a read error and reports that frame no message are malformed. */
  lemma {:induction false} NothingTells(cid: ChannelID, nonce: bytes, foreign: seq<Content>, rest: bytes)
    requires |nonce| == 8 && forall f :: f in foreign ==> Foreign(f, cid, nonce)
    requires !DecodeStream(Waiting, rest).0.Complete?
    ensures InitFrom(cid, nonce, Wire(foreign) + rest).0 ==
            if DecodeStream(Waiting, rest).0.Broken? then InitMalformed else InitReadFailed
    decreases |foreign|
  {
    if foreign == [] {
      assert Wire([]) + rest == rest;
    } else {
      var first, later := foreign[0], Wire(foreign[1..]);
      assert first in foreign;
      OneMessage(first, later + rest);
      Associate(Flatten(Encodings(PacketsOf(first))), later, rest);
      MessageTells(first, cid, nonce);
      NothingTells(cid, nonce, foreign[1..], rest);
    }
  }

  /** So Init takes the channel allocated to its own nonce. */
  lemma OwnChannelAllocated(cid: ChannelID, nonce: bytes, foreign: seq<Content>, own: Content, rest: bytes)
    requires |nonce| == 8 && Own(own, cid, nonce)
    requires forall c :: c in foreign ==> Foreign(c, cid, nonce)
    ensures var (outcome, left) := InitFrom(cid, nonce, Wire(foreign + [own]) + rest);
            && left == rest && outcome.Allocated?
            && var r := outcome.response;
               && r.nonce == own.data[..8] == nonce && r.cid == own.data[8..12]
               && r.version == own.data[12..16] && r.capabilities == own.data[16]
  {
    FirstTellingMessage(cid, nonce, foreign, own, rest);
  }

  /** The response at `at` in the stream is an INIT response on this channel with this nonce, and these
      are the channel and the rest of what it says. */
  ghost predicate Says(input: bytes, at: nat, cid: ChannelID, nonce: bytes, r: InitResponse, rest: bytes) {
    && at <= |input| && DecodeStream(Waiting, input[at..]).0.Complete? && DecodeStream(Waiting, input[at..]).1 == rest
    && var m := DecodeStream(Waiting, input[at..]).0.message;
       && m != [] && m[0].cid == cid && m[0].command == 0x06 && |m[0].data| >= 17
       && m[0].data[..8] == nonce == r.nonce && m[0].data[8..12] == r.cid
       && m[0].data[12..16] == r.version && m[0].data[16] == r.capabilities
  }

  lemma {:induction false} RestIsSuffix(d: Decoder, input: bytes)
    ensures var rest := DecodeStream(d, input).1; |rest| <= |input| && rest == input[|input| - |rest|..]
    decreases |input|
  {
    if !d.Complete? && !d.Broken? && |input| >= PACKET_SIZE {
      RestIsSuffix(Feed(d, input[..PACKET_SIZE]), input[PACKET_SIZE..]);
    }
  }

  /** Whatever the stream, a channel is only ever taken from a whole message in it that carries the nonce
      that was sent, and it is the channel that message names. */
  lemma {:induction false} AllocatedIsOwn(cid: ChannelID, nonce: bytes, input: bytes) returns (at: nat)
    requires InitFrom(cid, nonce, input).0.Allocated?
    ensures Says(input, at, cid, nonce, InitFrom(cid, nonce, input).0.response, InitFrom(cid, nonce, input).1)
    decreases |input|
  {
    ConsumesPackets(Waiting, input);
    var (d, rest) := DecodeStream(Waiting, input);
    if InitAnswer(d.message, cid, nonce).None? {
      RestIsSuffix(Waiting, input);
      var later := AllocatedIsOwn(cid, nonce, rest);
      at := |input| - |rest| + later;
      assert input[at..] == rest[later..];
    } else {
      at := 0;
      assert input[0..] == input;
    }
  }
}
