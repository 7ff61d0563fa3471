# Verified model of the CTAP host library

A Dafny model of the parts of the library where bytes, messages and permissions can go astray, with
proofs about them. `dafny verify dfyconfig.toml` checks everything.

| file | models |
|---|---|
| `Bytes.dfy` | bytes, big-endian fields, `Option` and `Result` |
| `BleFraming.dfy` | CTAP BLE fragments (section 11.4.4 of CTAP 2.3): splitter and assembler |
| `BleTransport.dfy` | the BLE request/response protocol: reader goroutine, write gate, BUSY retry, cancel-and-drain, Close |
| `HidFraming.dfy` | CTAPHID packets (section 11.2.4 of CTAP 2.1): encoder and decoder |
| `HidChannel.dfy` | one CTAPHID channel on a shared endpoint: report queue, wake token, response loop |
| `HidInit.dfy` | allocating a channel among other clients' INIT responses |
| `HidTransport.dfy` | the HID command protocol: command and write mutexes, CHANNEL_BUSY retry, cancel-and-drain |
| `LargeBlobs.dfy` | fragmented storage (section 6.10.2 of CTAP 2.1) and the keyed store over it (sections 6.10.4-6.10.6 of CTAP 2.3) |
| `Diagnostic.dfy` | the schema-directed, redacting printer of CBOR messages |
| `Redaction.dfy` | what the printer hides, told from the struct tags alone |
| `Notation.dfy` | what the printer shows: layout, key order, placeholders, and which trees can be printed |
| `AuthData.dfy` | the authenticator-data parser (section 6.1 of WebAuthn Level 3) |
| `CredentialIds.dfy`, `Prf.dfy`, `PreviewSign.dfy` | planning one GetAssertion for a whole allow list |
| `Select.dfy` | choosing one of several devices: who closes what |
| `Permissions.dfy` | choosing a pinUvAuthToken flow (section 6.5.5.7 of CTAP 2.3) |

How to read it:

- Code that updates fields is a class whose methods are proved equal to functions on values
  (`ResponseFrameAssembler` to `Add`, `ChannelDevice` to `Enqueued` and `NextOf`, `Formatter` to
  `RenderValue`); loops are methods with invariants. The theorems are about those functions, and say in
  bytes, bits and inputs, without naming them, what they return.
- Concurrent code is a state and a set of events. A run is any sequence of enabled events, so every
  scheduler, every timer, every failure and every well-behaved peer is covered. Timers and contexts are
  events that may happen whenever the code waits for them.
- Nothing is assumed without being said in a `requires`. Hashes, CBOR, base64, AEAD and DEFLATE are
  function parameters, and each theorem names the property it needs of them: a self-delimiting decoder, a
  codec that returns what it encoded, a seal that opens under one key only.
- The BLE and HID peers answer every request they were sent once, in order, after any number of keepalives,
  and ignore a CANCEL that finds them idle.

Three results are about where the code does less than one might expect:

- On HID a call can end after its request has arrived while the answer is neither read nor drained: the
  context of a Ping, Wink, Lock or Vendor call ends while it reads, or a write is given up with a bare context
  error although its last report arrived, or the drain's CANCEL is given up, which can happen to CBOR too. The
  device stays open, and from then on each command is answered with an older response. `HidTransport.ReturnsOwnAnswerUnlessAbandoned` gives the
  exact distance, `HidTransport.NothingGivenUpNothingAbandoned` a condition a caller can check, and
  `HidTransport.AbandonedPingAnswersTheNext` and `HidTransport.GivenUpCborAnswersTheNext` two runs. On BLE such
  a call closes the transport.
- On HID only CBOR takes the write mutex, so a CANCEL may fall between two reports of another command:
  `HidTransport.TornExactly` says when, `HidTransport.TearableExactly` to which requests. On BLE it cannot.
- Without an RP ID, a set of PIN permissions may be accepted although part of it is not
  (`Permissions.PinClosedUnderSubsets`).

## Model

| member | source | states |
|---|---|---|
| BleFraming.FragmentFrame | transport/ctapble/framing.go:22-45 | data above 65535 bytes is refused; otherwise the fragments are `Fragments`, whose meaning the next rows give |
| BleFraming.FragmentsAreFraming | transport/ctapble/framing.go:27-44 | the fragments are one initialization fragment declaring the length and continuations numbered i mod 128 that together carry the data, complete only at the last; none exceeds maxLen |
| BleFraming.ContinuationShape | transport/ctapble/framing.go:34-42 | every continuation is numbered from the start modulo 128, carries something and fits maxLen |
| BleFraming.FragmentLayout | transport/ctapble/framing.go:27-44 | byte for byte: status, length with the high byte first, data; then a sequence byte modulo 128 and data; all fragments but the last are full |
| BleFraming.ResponseFrameAssembler.constructor | transport/ctapble/framing.go:47-53 | a new assembler is idle |
| BleFraming.ResponseFrameAssembler.AddFragment | transport/ctapble/framing.go:55-64 | fields and result are those of `Add` on the old fields |
| BleFraming.ResponseFrameAssembler.InitializationFragment | transport/ctapble/framing.go:66-87 | fields and result for an initialization fragment, including the fields a too long one leaves behind |
| BleFraming.ResponseFrameAssembler.ContinuationFragment | transport/ctapble/framing.go:89-107 | fields and result for a continuation fragment, each rejection leaving the frame as it was |
| BleFraming.ResponseFrameAssembler.CompleteFrame | transport/ctapble/framing.go:109-113 | returns status and data and drops the buffer |
| BleFraming.AssemblerSound | transport/ctapble/framing.go:55-113 | on arbitrary input an emitted frame is exactly what the accepted fragments frame: first fragment, numbering, payload and declared length |
| BleFraming.AssemblerExact | transport/ctapble/framing.go:55-113 | from any idle assembler a list of fragments yields nothing before its last and then the frame if and only if it is a framing of that frame |
| BleFraming.RejectedExactly | transport/ctapble/framing.go:55-107 | which error a fragment gets, exactly, from its bytes and the frame being assembled |
| BleFraming.RejectionKeepsFrame | transport/ctapble/framing.go:66-107 | a rejected fragment neither disturbs the frame being assembled nor starts one |
| BleFraming.EmissionLeaves | transport/ctapble/framing.go:66-113 | an emitted frame leaves nothing behind to assemble or to hold |
| BleFraming.NextFragment | transport/ctapble/framing.go:89-107 | fragment by fragment: what a framing fed in order returns at each step |
| BleFraming.BleStreamRoundTrip | transport/ctapble/framing.go:22-113 | any frames sent back to back through one assembler come out one by one, each exactly at its last fragment, across any number of modulo-128 wraps |
| BleTransport.ReadResponse | transport/ctapble/transport.go:298-331 | the loop over notifications returns what folding them gives, or a read error once Close is under way, and has taken no more than it needed |
| BleTransport.Notifications.Next | transport/ctapble/transport.go:333-347 | the next notification, or the end of the subscription, or a Close noticed first |
| BleTransport.ReceiveFrame | transport/ctapble/transport.go:305-330 | a whole frame's fragments take the reader to what that frame means for the command |
| BleTransport.RunKeepsInvariant | transport/ctapble/transport.go:173-415 | gate, pairing, success and session invariants in every state of every run |
| BleTransport.LockFreeMeansClosedOrDrained | transport/ctapble/transport.go:173-296 | whenever the command lock is free the transport is closed, or no request is unanswered and no notification is queued or under way |
| BleTransport.ReturnsAnswerToOwnLastAttempt | transport/ctapble/transport.go:222-331 | the peer's answer to the last request decides: after ERROR 0x06 the command keeps the lock and backs off with the same request, after any other answer it returns that answer, which is to its own last request, and the record stays, under all cancel, drain-timeout, retry and Close interleavings |
| BleTransport.ResendsOnlyWhenBusy | transport/ctapble/transport.go:222-242 | in every run, between one command's start and return a further request is sent only after the one before it was answered with ERROR 0x06 |
| BleTransport.BusySendsAgain | transport/ctapble/transport.go:222-242 | after the wait the same request goes out again, from its first fragment |
| BleTransport.FrameMeaning | transport/ctapble/transport.go:305-330 | what each whole frame means to the waiting command, status by status: keepalive, error, the command's own, any other |
| BleTransport.MisfitEndsRead | transport/ctapble/transport.go:305-330 | a read ends as invalid exactly at a fragment the assembler rejects or a keepalive or error frame not of one byte |
| BleTransport.CanceledIsDrained | transport/ctapble/transport.go:262-296 | canceling a CBOR command whose answer comes in time costs one CANCEL on the wire, drains the answer, frees the lock and leaves the transport open |
| BleTransport.UndrainedCloses | transport/ctapble/transport.go:248-296 | in every run, whatever cannot be drained ends in Close: a Ping whose context ends, a CANCEL not written, an answer not in time, a request not written, a read that fails |
| BleTransport.ClosingEndsClosed | transport/ctapble/transport.go:262-296 | in every run, a command that closes comes back only when Close has returned |
| BleTransport.ClosedCommandLeavesReader | transport/ctapble/transport.go:262-347 | in every run, a command that comes back from Close returns no answer and leaves a reader still reading behind, which takes notifications for nobody |
| BleTransport.CloseCancelsActiveCommand | transport/ctapble/transport.go:392-415 | in every run, a Close that begins while a CBOR command is at work sends CANCEL first; during a Ping or when idle it closes at once |
| BleTransport.CloseSendsCancel | transport/ctapble/transport.go:369-415 | with the gate, Close puts one CANCEL frame on the wire and gives the gate back before it closes anything |
| BleTransport.WritesNeverInterleave | transport/ctapble/transport.go:349-415 | the control-point log is a concatenation of prefixes of single frames, each whole unless being written or failed; a failed request write leaves the transport closed once the lock is free |
| BleTransport.ReleaseIsBounded | transport/ctapble/transport.go:173-415 | from every reachable state a bounded number of the command's and Close's own steps releases the command lock, without any help from the peer |
| BleTransport.AnyTimer | transport/ctapble/transport.go:222-296 | contexts end and timers fire whenever the command waits for them |
| BleTransport.AnyReadAndClose | transport/ctapble/transport.go:298-415 | reads succeed and fail, and Close begins and gives up, whenever they can |
| BleTransport.AnyAnswer | transport/ctapble/transport.go:298-331 | an owed answer may be preceded by keepalives and may be any error or any frame of the request's status, cut into fragments in any way |
| BleTransport.AnyWriteResult | transport/ctapble/transport.go:349-390 | every write may fail, seen by the peer or not, and succeed while the transport is open |
| HidFraming.NewMessage | transport/ctaphid/encoding.go:11-41 | more than 7609 bytes are refused; otherwise the packets are `Packets`, whose meaning the round trips give |
| HidFraming.WritePacket | transport/ctaphid/encoding.go:73-127 | header, data and zero padding of one packet |
| HidFraming.OutputReports | transport/ctaphid/raw.go:37-48 | one report per packet: report ID zero and the encoded packet |
| HidFraming.Payload | transport/ctaphid/raw.go:27-34 | the concatenated packet data |
| HidFraming.EncodingsCarry | transport/ctaphid/encoding.go:73-127 | every encoded packet is 64 bytes and holds the packet's fields where the decoder looks |
| HidFraming.EncodedLayout | transport/ctaphid/encoding.go:73-127 | the 64 bytes of a packet: CID, command with bit 7 or sequence, length with the high byte first, data, and zeroes behind them |
| HidFraming.WireLayout | transport/ctaphid/encoding.go:11-127 | a message on the wire byte for byte: just enough packets for its data, 57 bytes in the first and 59 in each later one, numbered from zero, padded with zeroes |
| HidFraming.ReadFrom | transport/ctaphid/decoding.go:8-70 | the loop with total, expectedSequence and expectedCID is the decoder automaton: message, byte count and what it leaves unread |
| HidFraming.FeedOnTrack | transport/ctaphid/decoding.go:28-64 | what has been accepted is always a prefix of the encoder's packets, whatever follows; the 129th continuation is impossible |
| HidFraming.DecoderSound | transport/ctaphid/decoding.go:8-70 | an accepted message is NewMessage of its own CID, command and payload, packet for packet, and is what the reports carried |
| HidFraming.DecoderComplete | transport/ctaphid/decoding.go:8-70 | reports that carry an encoded message decode to it and nothing behind it is taken |
| HidFraming.DecoderExact | transport/ctaphid/decoding.go:8-70 | accepted messages are exactly the encoder's image |
| HidFraming.AcceptedLength | transport/ctaphid/decoding.go:33-62 | no declared length above 7609 is ever accepted, and the declared length is the payload's |
| HidFraming.HidStreamRoundTrip | transport/ctaphid/encoding.go:11-127 | any messages written back to back are read back one by one |
| HidFraming.OneMessage | transport/ctaphid/decoding.go:8-70 | one message takes 64 bytes a packet and leaves the rest of the stream |
| HidFraming.ContentRecovered | transport/ctaphid/raw.go:12-34 | CID, command, declared length and payload of a decoded message are those encoded |
| HidChannel.ChannelDevice.constructor | transport/ctaphid/channel_device.go:35-49 | an empty queue, no error and no token |
| HidChannel.ChannelDevice.Enqueue | transport/ctaphid/channel_device.go:132-144 | a report of this channel is appended, any other is dropped |
| HidChannel.ChannelDevice.NextReport | transport/ctaphid/channel_device.go:114-130 | the oldest report, else the error if there is one |
| HidChannel.ChannelDevice.SetCID | transport/ctaphid/channel_device.go:86-91 | the new channel starts with an empty queue |
| HidChannel.ChannelDevice.Finish | transport/ctaphid/channel_device.go:146-160 | the error is kept, a reader canceled by Close as the close error, and a token posted |
| HidChannel.ChannelDevice.Notify | transport/ctaphid/channel_device.go:162-167 | the one-slot channel holds a token afterwards |
| HidChannel.RunKeepsInvariant | transport/ctaphid/channel_device.go:51-167 | in every state of every run: no lost wake-up, delivered ++ pending is the filtered input, the error comes last, the response loop has folded exactly what it was given |
| HidChannel.BlockedReadReturns | transport/ctaphid/channel_device.go:51-67 | a blocked reader with something to read returns it after at most three more steps |
| HidChannel.StepsGoOn | transport/ctaphid/channel_device.go:51-84 | what posting, taking and giving up for the wake token does to producer, reader and token |
| HidChannel.NothingIsRuledOut | transport/ctaphid/channel_device.go:51-167 | both sides can always take their next step, and reports and errors come whenever the producer waits for them |
| HidChannel.FaultAfterEveryReport | transport/ctaphid/channel_device.go:98-130 | a read that returns the error has delivered every report there will ever be |
| HidChannel.FilteredIsArrived | transport/ctaphid/channel_device.go:86-144 | between two setCID calls the filtered input is this channel's reports of the raw input, in order |
| HidChannel.DemultiplexedResponse | transport/ctaphid/commands.go:52-103 | whatever other channels' reports and reads are interleaved, the loop returns what the first non-keepalive message of its channel means, exactly when it has it whole, and every later report is pending, in order |
| HidChannel.ReadCBORResponse | transport/ctaphid/commands.go:52-103 | the loop on a byte stream returns `ResponseFrom` and, for every outcome but an ended stream, leaves what follows unread |
| HidChannel.ResponseFromReports | transport/ctaphid/commands.go:52-103 | the loop on a byte stream and the report-by-report loop agree on outcome and on what they took |
| HidChannel.AnswerOfContent | transport/ctaphid/commands.go:70-101 | other channels' messages and keepalives are skipped; CBOR gives the payload behind a zero status, or the status, or malformed when empty; ERROR gives its code, or malformed when empty; any other command is unexpected |
| HidChannel.ResponseOnWire | transport/ctaphid/commands.go:52-103 | behind any skipped messages the loop on a byte stream returns what the first other message means and leaves what follows it |
| HidChannel.SinceSetCID | transport/ctaphid/channel_device.go:86-144 | in every run, from a setCID on the filtered input is exactly what arrived for the new channel, after at most a report the producer was holding |
| HidInit.ReadInit | transport/ctaphid/commands.go:121-168 | the loop of Init returns `InitFrom` and, for every outcome but an ended stream, leaves what follows unread |
| HidInit.OwnChannelAllocated | transport/ctaphid/commands.go:121-168 | past any other clients' responses, keepalives and other channels' messages, Init takes nonce, channel ID, version and capabilities from bytes 0-8, 8-12, 12-16 and 16 of the response to its own nonce |
| HidInit.FirstTellingMessage | transport/ctaphid/commands.go:121-168 | past any foreign messages the first other message decides, command by command: INIT allocates or is malformed when short, ERROR gives its code or is malformed, anything else is unexpected; what follows is left unread |
| HidInit.NothingTells | transport/ctaphid/commands.go:121-168 | with foreign messages only, a stream that ends is a read error and one that frames no message is malformed |
| HidInit.AllocatedIsOwn | transport/ctaphid/commands.go:138-157 | on any stream, a channel is only taken from a whole INIT message in it with the nonce that was sent, and is the one at bytes 8-12 of that message |
| HidTransport.RunKeepsInvariant | transport/ctaphid/transport.go:130-289 | mutex, wire, queue, debt and success invariants in every state of every run, with writes that succeed, fail or are given up, arriving or not |
| HidTransport.DrainedUnlessAbandoned | transport/ctaphid/transport.go:130-187 | between commands on an open device the answers still owed are as many as calls were abandoned, that is ended after their request had arrived without reading or draining its answer; nothing is owed or queued if and only if there were none |
| HidTransport.ReturnsOwnAnswerUnlessAbandoned | transport/ctaphid/transport.go:148-187 | ERROR 0x06 makes a command keep the mutex and back off; any other answer it returns, and it is the answer to the request as many before its own last attempt as calls were abandoned; its own if and only if there were none |
| HidTransport.ResendsOnlyWhenBusy | transport/ctaphid/transport.go:43-71 | in every run, between one command's start and return a request is written again only after a read of ERROR 0x06 |
| HidTransport.BusySendsAgain | transport/ctaphid/transport.go:43-71 | after the wait the same request is written again |
| HidTransport.CanceledIsDrained | transport/ctaphid/transport.go:148-187 | a CBOR command whose context ends while it reads takes the write mutex, puts one CANCEL on the wire and drains |
| HidTransport.DrainTakesAnswer | transport/ctaphid/transport.go:163-187 | the drain takes the one answer owed, whatever it is, and returns it to nobody |
| HidTransport.DeviceErrorsClose | transport/ctaphid/transport.go:73-94 | a device error closes the device and ends the command; a write given up only ends it |
| HidTransport.NothingGivenUpNothingAbandoned | transport/ctaphid/transport.go:148-187 | nothing is abandoned as long as no write of a last report, no drain's CANCEL and no read of a command other than CBOR was given up |
| HidTransport.AbandonsExactly | transport/ctaphid/transport.go:130-217 | step by step, exactly which steps abandon a call |
| HidTransport.MutexIsReleased | transport/ctaphid/transport.go:130-262 | in every state of every run at most three of the host's own steps free the command mutex |
| HidTransport.AnySurroundings | transport/ctaphid/transport.go:43-289 | no timer, context, read failure, Cancel, Close, keepalive, error or reply is ruled out while the code waits for it |
| HidTransport.AnyWriteResult | transport/ctaphid/transport.go:189-262 | every write may fail or be given up, arrived or not, and succeed while the device is open |
| HidTransport.TornExactly | transport/ctaphid/transport.go:189-262 | in every run all messages on the wire are in one piece if and only if no request went on after a CANCEL had been put on the wire behind one of its reports |
| HidTransport.CborWritesAreWhole | transport/ctaphid/transport.go:189-262 | in every run each report of a CBOR request on the wire directly follows the one before it; a report that does not is another command's, of more than 57 bytes, and comes behind a CANCEL |
| HidTransport.TearableExactly | transport/ctaphid/transport.go:189-262 | the requests some run tears are exactly those that are not CBOR and have more than 57 bytes |
| HidTransport.AbandonedPingAnswersTheNext | transport/ctaphid/transport.go:201-217 | a run in which a Ping returns the echo of an earlier Ping that was given up |
| HidTransport.GivenUpCborAnswersTheNext | transport/ctaphid/transport.go:148-153 | a run in which a CBOR command returns the answer to an earlier one whose write was given up although it arrived |
| HidTransport.CancelTears | transport/ctaphid/transport.go:252-262 | any request other than CBOR can be torn behind any of its reports but the last by one Cancel |
| LargeBlobs.ReadFragments | authenticator/authenticator.go:1813-1850 | the read loop returns exactly the stored bytes after floor(n/max)+1 reads, also when n is a multiple of the fragment size |
| LargeBlobs.FragmentLengthIs | authenticator/authenticator.go:145-147 | 64 bytes less than the maximum message size, which is 1024 when not reported |
| LargeBlobs.GetLargeBlobs | authenticator/authenticator.go:1807-1870 | on a reliable link, stored bytes shorter than 16 or not ending in the hash of the rest are a checksum error, a body that does not decode is a syntax error, and otherwise the decoded array is returned; on any link nothing else is, except a device error |
| LargeBlobs.MarshalLargeBlobArray | authenticator/authenticator.go:1893-1896 | every element has a tag and a 12-byte nonce, or nothing is written |
| LargeBlobs.WriteFragments | authenticator/authenticator.go:1927-1951 | every fragment is accepted in sequence and exactly the serialized bytes end up stored; a lost exchange leaves the old or the new bytes, never a mixture |
| LargeBlobs.SetLargeBlobs | authenticator/authenticator.go:1888-1952 | which check fails first, by error, and that a success stores the serialized array |
| LargeBlobs.WriteThenRead | authenticator/authenticator.go:1807-1952 | for every array within the limit and every maxMsgSize above 64, writing and reading returns the array |
| LargeBlobs.ParseOfSerialized | authenticator/authenticator.go:1851-1869 | a serialized array passes its own length and hash checks and parses to itself |
| LargeBlobs.ParsedExactly | authenticator/authenticator.go:1851-1869 | a stored string is accepted as an array if and only if it is some body and its hash with the body decoding to that array; which of the two errors otherwise |
| LargeBlobs.AcceptsExactly | authenticator/authenticator.go:1888-1925 | what the platform writes: elements with a tag and a 12-byte nonce whose encoding and hash fit the reported maximum |
| LargeBlobs.EncryptedOpens | authenticator/large_blob.go:102-131 | an element opens, and inflates to its data, under its own key only |
| LargeBlobs.EncryptsUpTo | crypto/crypto.go:162-190 | encryption refuses exactly a key that is not 32 bytes and data above one megabyte |
| LargeBlobs.FirstToOpenIsRead | authenticator/large_blob.go:80-91 | a key reads the first element that opens under it: its data if it inflates to its declared size of at most one megabyte, otherwise corrupt |
| LargeBlobs.FirstToOpenIsReplaced | authenticator/large_blob.go:108-119 | a write replaces the first element that opens, in place |
| LargeBlobs.WriteIsMapUpdate | authenticator/large_blob.go:96-131 | a write is a map update: its key reads the new data, every other key reads what it read, the array grows only for a missing key |
| LargeBlobs.WriteKeepsOnePerKey | authenticator/large_blob.go:96-131 | at most one element per key stays so |
| LargeBlobs.WrittenArrayReadsBack | authenticator/large_blob.go:66-131 | end to end over the stored bytes: new data under the key, unchanged data under every other |
| LargeBlobs.ReadEntry | authenticator/large_blob.go:80-91 | the scan finds the first element that opens under the key |
| LargeBlobs.ReplaceEntry | authenticator/large_blob.go:102-131 | the scan replaces the first element that opens under the key, else appends |
| LargeBlobs.ResolveRead | authenticator/large_blob.go:66-94 | each assertion's output is what the array holds for its key; an array that cannot be read, as a corrupted one, gives empty outputs; otherwise the first bad key or corrupt element fails, by error |
| LargeBlobs.ResolveWrite | authenticator/large_blob.go:96-131 | written is true only if the updated array is what is stored; on a reliable link exactly when it can be read and rewritten; a corrupted array is left as it is and reported unwritten |
| LargeBlobs.ResolveLegacyLargeBlobOutputs | authenticator/large_blob.go:43-132 | which outputs are set, that reads store nothing, what a read answers, and that a write is reported exactly when it happened |
| LargeBlobs.ReadWriteRead | authenticator/large_blob.go:43-132 | reading, writing and reading again over one stored array: the write is reported, its key reads the new data, and another key reads or fails exactly as before |
| Diagnostic.RedactionShowsShapeOnly | client/diagnostic.go:282-328 | the notation of a redacted value shows its major type, tag numbers and simple class and nothing else |
| Diagnostic.SortCanonical | client/diagnostic.go:197-203 | with distinct keys, sorting forgets the order the entries were met in |
| Redaction.RenderingHidesRedacted | client/diagnostic.go:95-341 | trees that agree except under keys whose struct field has the redact tag, where only shapes agree, render to the same notation and redacted-field list or fail alike, in whatever orders their maps are visited |
| Redaction.FieldsFromTags | client/diagnostic.go:349-449 | the printer's field for a key is the last exported field with that wire key, embedded structs included, and is redacted if and only if its tag says redact |
| Redaction.IndirectExact | client/diagnostic.go:473-489 | pointers are looked through, and nothing else; element types of lists and maps |
| Redaction.CollectFailsExactly | client/diagnostic.go:358-449 | collecting fails exactly at the first field with a bad tag, with what is wrong with it |
| Redaction.EntryFromTags | client/diagnostic.go:214-267 | path, schema, redaction and sub-command of an entry are those the tags give |
| Redaction.ReportedSubCommand | client/diagnostic.go:178-195 | the sub-command reported is the last decodable one of a map, else zero |
| Diagnostic.VisitOrderDoesNotShow | client/diagnostic.go:153-203 | no order of visiting a Go map shows in the output |
| Redaction.RedactedListExact | client/diagnostic.go:248-255 | the redacted list holds exactly the paths of the fields with the redact tag in the tree, each as often as it occurs |
| Notation.RedactedPlaceholders | client/diagnostic.go:282-328 | the placeholder of every kind of scalar, literally |
| Notation.RedactedContainers | client/diagnostic.go:330-347 | the placeholder of an array and of a map, with its indentation |
| Notation.ArrayLayout | client/diagnostic.go:106-138 | an array is its elements' renderings in order, one per indented line, between brackets |
| Notation.MapLayout | client/diagnostic.go:147-280 | a map is all its entries, each once, in length-first bytewise key order, with comment, key and value as the field's tag has it |
| Notation.ScalarLayout | client/diagnostic.go:104-145 | anything but arrays and maps is left to the CBOR library |
| Notation.PrintsExactly | client/diagnostic.go:95-280 | a tree is printed if and only if all struct tags met are valid, all keys and comment names printable and all values not redacted printable |
| Notation.DecimalIs | client/diagnostic.go:300-311 | a printed tag number is its decimal digits without a leading zero |
| Diagnostic.SameSubCommand | client/diagnostic.go:176-187 | the sub-command found does not depend on the visiting order |
| Diagnostic.Formatter.constructor | client/diagnostic.go:68-74 | nothing redacted yet |
| Diagnostic.Formatter.CollectFields | client/diagnostic.go:358-424 | the loop over struct fields, embedded structs in place, fills the map as `Collect` says |
| Diagnostic.Formatter.FieldsFor | client/diagnostic.go:349-356 | the fields of the schema's struct, if it is one |
| Diagnostic.Formatter.Render | client/diagnostic.go:95-145 | notation, sub-command and the paths added to the redacted list are those of `RenderValue` |
| Diagnostic.Formatter.RenderArray | client/diagnostic.go:106-138 | the element loop |
| Diagnostic.Formatter.RenderMap | client/diagnostic.go:147-280 | sorting entries and printing them is `RenderValue`, which sorts printed lines |
| Diagnostic.Formatter.RenderSorted | client/diagnostic.go:211-274 | the entry loop, up to the first entry that fails |
| Diagnostic.Formatter.RenderEntryValue | client/diagnostic.go:214-267 | comment, key, and the value redacted or under the schema chosen for it |
| Diagnostic.Formatter.FindSubCommand | client/diagnostic.go:178-195 | the sub-command after visiting all entries |
| AuthData.ParseAuthData | protocol/helpers.go:34-111 | the cursor loop is `Parse`, error for error |
| AuthData.ParseAttested | protocol/helpers.go:48-81 | the attested credential data read with the cursor is `ParseCredential`, error for error |
| AuthData.ParseSound | protocol/helpers.go:34-111 | every accepted input is fully partitioned into header, credential and extension map: it is the encoding of the structure returned |
| AuthData.ParseComplete | protocol/helpers.go:34-111 | parsing the encoding of any structure with the reserved bits clear returns it |
| AuthData.ParseExact | protocol/helpers.go:34-111 | an input parses to a structure if and only if it is that structure's encoding |
| AuthData.AcceptedLayout | protocol/helpers.go:34-111 | every field of an accepted input at its byte offset, presence by bits 6 and 7 of the flags, and nothing behind the last field |
| AuthData.RejectedExactly | protocol/helpers.go:34-111 | what each error says of the bytes: lengths, reserved bits 1 and 5, undecodable key or extensions, bytes left over |
| CredentialIds.KeysMatchAllowList | authenticator/preview_sign.go:79-95 | as many allowed keys as listed credentials if and only if no credential is listed twice and none is without a key |
| CredentialIds.CountDistinct | authenticator/preview_sign.go:83-86 | there are as many encoded IDs as entries exactly when none repeats |
| CredentialIds.WellFormedExactly | authenticator/prf.go:168-172 | a key passes if and only if it is the non-empty encoding of some ID |
| CredentialIds.CollectIds | authenticator/prf.go:163-166 | the loop collects exactly the encoded IDs of the allow list |
| Prf.ValidateGetInputs | authenticator/prf.go:147-181 | no error exactly when the inputs are valid; an error is one the inputs have |
| Prf.EqualOptionalValues | authenticator/prf.go:246-258 | the comparison holds exactly for equal values, absent and present-empty told apart |
| Prf.SelectEvaluation | authenticator/prf.go:198-244 | after validation it succeeds if and only if one choice serves every allowed credential, and returns it: a credential's own entry before eval, eval if it has a first, else nothing |
| Prf.ServesAllExactly | authenticator/prf.go:183-196 | one choice serves all if and only if it is each credential's own entry or, without one, eval |
| Prf.ValidExactly | authenticator/prf.go:147-181 | inputs are valid if and only if eval has no second without first and every key is the non-empty encoding of a listed ID with a first |
| Prf.ErrorMeans | authenticator/prf.go:122-181 | what each error says of the inputs |
| Prf.EveryCredentialIsEvaluated | authenticator/prf.go:183-196 | with per-credential inputs a success leaves no credential without an evaluation |
| Prf.OnlyTheListedSetMatters | authenticator/prf.go:220-226 | listing a credential twice, or in another order, changes neither validity nor the choice |
| PreviewSign.EqualMeansSame | authenticator/preview_sign.go:123-145 | on validated inputs the byte comparison misses nothing, not even an absent member |
| PreviewSign.CheckKeys | authenticator/preview_sign.go:83-95 | every key is well formed and listed, or the error is the defect of one that is not |
| PreviewSign.CommonInputs | authenticator/preview_sign.go:97-114 | succeeds exactly when every credential has the same valid input, and returns it; otherwise the error is the defect of the first credential that has one |
| PreviewSign.ValidateGet | authenticator/preview_sign.go:59-121 | succeeds with an input if and only if the request is acceptable with that input; an error names a defect the request has |
| PreviewSign.AcceptedIsBijection | authenticator/preview_sign.go:79-114 | acceptance means keys and allow list correspond one to one, no ID twice, each entry the returned input |
| PreviewSign.AcceptedExactly | authenticator/preview_sign.go:59-145 | the accepted requests, member by member |
| PreviewSign.SignErrorMeans | authenticator/preview_sign.go:123-139 | which defect of one input is reported |
| PreviewSign.ErrorMeans | authenticator/preview_sign.go:59-95 | what each error says of the request |
| PreviewSign.FirstDefectMeans | authenticator/preview_sign.go:97-114 | an error about an input is the first credential's whose input is defective or differs from the first one's |
| Select.Ledger.Close | authenticator/authenticator.go:178-180 | one more call of Close, and whether it failed |
| Select.CloseDevices | authenticator/select.go:82-91 | everything but the exception is closed, in order, and whether all closes succeeded |
| Select.Gather | authenticator/select.go:23-35 | transports that fail to initialize are closed, the others become devices |
| Select.Await | authenticator/select.go:58-79 | the loop over results: what is returned and what is closed |
| Select.Select | authenticator/select.go:14-80 | what is returned and what is closed, for every enumeration and script of results |
| Select.PickedIsFirstSuccess | authenticator/select.go:59-76 | the device picked is the first whose selection succeeds before any cancellation |
| Select.OutcomeExact | authenticator/select.go:58-79 | after failures only: a success selects that device, unless another one fails to close; a cancellation ends with the context's error; and when all have failed none is selected |
| Select.FewDevices | authenticator/select.go:37-42 | no device is an error, a single one is returned unasked |
| Select.DismissedInOrder | authenticator/select.go:58-91 | what is closed, in device order, the selected one last and only when another fails to close |
| Select.OwnershipConserved | authenticator/select.go:23-91 | each transport offered ends as the one returned, never closed, or closed exactly once |
| Select.NoSendBlocks | authenticator/select.go:51-56 | in every state of the results channel a goroutine that has not sent can send, and a waiting caller has something to receive or someone to wait for |
| Permissions.Supports | protocol/helpers.go:113-121 | membership |
| Permissions.IsPreviewOnly | protocol/helpers.go:123-143 | FIDO_2_0 and FIDO_2_1_PRE are listed, FIDO_2_1 and FIDO_2_3 are not |
| Permissions.IsFido20Only | authenticator/preflight.go:44-55 | FIDO_2_0 is listed and nothing but it and U2F_V2 |
| Permissions.ValidatePermissionSet | authenticator/preflight.go:191-206 | non-zero, and pcmr only on its own |
| Permissions.SelectPinTokenFlowUsingPin | authenticator/preflight.go:231-333 | accepts exactly `PinAccepts`, with the flow that needs, and each error is that of the first check that fails |
| Permissions.SelectPinUvAuthTokenFlowUsingUv | authenticator/preflight.go:342-431 | accepts exactly `UvAccepts`, with the flow that needs, and each error is that of the first check that fails |
| Permissions.PinTable | authenticator/preflight.go:231-333 | the PIN selector as a table over permission bits and reported options |
| Permissions.UvTable | authenticator/preflight.go:342-431 | the selector for built-in verification as a table over permission bits and reported options |
| Permissions.LegacyNeededExactly | authenticator/preflight.go:313-330 | a PIN gets the legacy token if and only if pinUvAuthToken is not reported true, the device speaks CTAP 2.0 only, or cm or be is asked of a preview device |
| Permissions.NoPermissionedTokens | authenticator/preflight.go:313-431 | without permissioned tokens a PIN gets the legacy one, for mc and ga and on preview devices cm and be only; built-in verification gets one only from the preview flow |
| Permissions.ModesExact | authenticator/preflight.go:433-475 | which mode the credential management and bio enrollment commands have, or which option is missing |
| Permissions.PinAcceptsSubsets | authenticator/preflight.go:231-333 | with an RP ID, every non-empty part of a set accepted for a PIN is accepted |
| Permissions.PinClosedUnderSubsets | authenticator/preflight.go:313-330 | an accepted set is closed under non-empty subsets if and only if an RP ID is given or no part of the set is excused from it |
| Permissions.PinSubsetRejectedWithoutRpId | authenticator/preflight.go:313-330 | a device and a set accepted without an RP ID whose part is rejected |
| Permissions.UvAcceptsSubsets | authenticator/preflight.go:342-431 | every non-empty part of a set accepted for built-in verification is accepted, with or without an RP ID |
| Permissions.PinGrantsUsableModes | authenticator/preflight.go:433-475 | a set accepted for a PIN with cm or be finds that command's mode on the same device, a preview mode always with the legacy token |

## Left out

- Cryptography, CBOR, base64, hashing and DEFLATE are parameters of the model, not algorithms.
- The CTAPHID decoder drops packets it has already taken when a read ends inside a message (transport/ctaphid/decoding.go:14-19). `HidTransport` reads whole messages, so there a context ends between messages.
- HidTransport.DrainedUnlessAbandoned: takes the authenticator to answer a request once its last report arrives, and not otherwise; what it makes of a request that was torn or given up halfway is not modeled.
- HidTransport.ReturnsOwnAnswerUnlessAbandoned: the same holds of the answers it counts.
- The HID library is not part of this model. Whether it reports a context's end during a write as a device error or as the bare context error is open here, so both may happen.
- BleTransport.ReadResponse: one value `InvalidFrame` stands for the assembler's, keepalive's and error-code's invalid frames, which the code joins under one error too.
- The assembler of transport/ctapble keeps a slice of the notification and may append in place; the model copies, so sharing of the backing array is not captured.
- Opening a BLE transport: service and characteristic discovery, properties and the revision bitfield.
- The authenticator at the other end of the large-blob commands is `LargeBlobs.Authenticator`, written from section 6.10.2 of CTAP 2.1; it does not check pinUvAuthParam, and authorization is a parameter of `SetLargeBlobs`.
- LargeBlobs.GetLargeBlobs: requires a maxMsgSize above 64, because authenticator/authenticator.go:145-147 subtracts 64 without a check; at 64 the read loop asks for empty fragments and need not end, below it the unsigned length wraps.
- LargeBlobs.SetLargeBlobs: requires a maxMsgSize above 64 for the same reason; at 64 or below chunking panics.
- LargeBlobs.ResolveRead: requires a maxMsgSize above 64, as the read it makes.
- LargeBlobs.ResolveWrite: requires a maxMsgSize above 64, as the read and the write it makes.
- LargeBlobs.ResolveLegacyLargeBlobOutputs: requires a maxMsgSize above 64, as the reads and writes it makes.
- Redaction.RenderingHidesRedacted: requires distinct encoded keys in a map, at most one sub-command field in a struct and that field shown; a redacted sub-command would choose the schema of its parameters.
- The final sort and compaction of the redacted list, lower-casing of field names and the parsing of struct tags in client/diagnostic.go.
- `Select` takes the results as a script; that the goroutines can always deliver one is `Select.NoSendBlocks`.
- Permissions.PinGrantsUsableModes: nothing of the kind is claimed for built-in verification, since a preview-only device without uvToken takes the permissioned path.
- Cached GetInfo validity, FIPS filters, command builders, COSE and attestation checks, TCP and PC/SC backends, examples.
- Error texts. Errors are told apart by cause.
