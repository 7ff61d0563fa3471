/** The serialized large-blob array: written and read in fragments (authenticator/authenticator.go)
    and used as a store keyed by largeBlobKey (authenticator/large_blob.go). */
module LargeBlobs {
  import opened Bytes

  const HASH_SIZE := 16
  const KEY_SIZE := 32
  const NONCE_SIZE := 12
  const TAG_SIZE := 16
  const MESSAGE_OVERHEAD := 64
  const DEFAULT_MAX_MESSAGE := 1024
  const MAX_BLOB_DATA := 0x10_0000

  datatype LargeBlob = LargeBlob(ciphertext: bytes, nonce: bytes, origSize: nat)

  /** The library calls behind the array: SHA-256 cut to 16 bytes, CBOR, AES-256-GCM with the
      original size as associated data, and raw DEFLATE. */
  datatype Library = Library(
    hash: bytes -> bytes,
    marshal: seq<LargeBlob> -> bytes,
    unmarshal: bytes -> Option<seq<LargeBlob>>,
    seal: (bytes, bytes, nat, bytes) -> bytes,
    open: (bytes, LargeBlob) -> Option<bytes>,
    deflate: bytes -> bytes,
    inflate: bytes -> Option<bytes>)

  ghost predicate HashIsSized(lib: Library) {
    forall x: bytes :: |lib.hash(x)| == HASH_SIZE
  }

  ghost predicate CodecIsFaithful(lib: Library) {
    forall blobs: seq<LargeBlob> :: lib.unmarshal(lib.marshal(blobs)) == Some(blobs) && |lib.marshal(blobs)| > 0
  }

  /** Sealed data opens under its own key, and no element opens under two keys. */
  ghost predicate AeadIsIdeal(lib: Library) {
    && (forall key, nonce, size: nat, data: bytes :: |lib.seal(key, nonce, size, data)| >= TAG_SIZE)
    && (forall key, nonce, size: nat, data ::
          lib.open(key, LargeBlob(lib.seal(key, nonce, size, data), nonce, size)) == Some(data))
    && (forall key, other, blob :: lib.open(key, blob).Some? && lib.open(other, blob).Some? ==> key == other)
  }

  ghost predicate DeflateIsFaithful(lib: Library) {
    forall data: bytes :: lib.inflate(lib.deflate(data)) == Some(data)
  }

  ghost predicate Ideal(lib: Library) {
    HashIsSized(lib) && CodecIsFaithful(lib) && AeadIsIdeal(lib) && DeflateIsFaithful(lib)
  }

  datatype Error = NotSupported | IntegrityCheck | Syntax | TooBig | Unauthorized | SpecViolation | BlobData | Device

  // ------------------------------------------------------------ the authenticator

  datatype Status = StatusOk | InvalidParameter | InvalidLength | InvalidSequence | StorageFull | IntegrityFailure | LinkFailure

  function Fragment(stored: bytes, offset: nat, get: nat): bytes
    requires offset <= |stored|
  {
    stored[offset..Min(offset + get, |stored|)]
  }

  function Trailer(lib: Library, body: bytes): bytes {
    body + lib.hash(body)
  }

  predicate HashMatches(lib: Library, s: bytes) {
    |s| >= HASH_SIZE && lib.hash(s[..|s| - HASH_SIZE]) == s[|s| - HASH_SIZE..]
  }

  /** authenticatorLargeBlobs as section 6.10.2 of CTAP 2.1 has the authenticator perform it. An
      unreliable link may lose any request or any response. */
  class Authenticator {
    const maxFragment: nat
    const capacity: nat
    const reliable: bool
    var stored: bytes
    var expectedLength: nat
    var expectedOffset: nat
    var buffer: bytes
    ghost var readCount: nat
    ghost var writeCount: nat

    constructor (maxFragment: nat, capacity: nat, reliable: bool, stored: bytes)
      ensures this.maxFragment == maxFragment && this.capacity == capacity && this.reliable == reliable
      ensures this.stored == stored && readCount == 0 && writeCount == 0
    {
      this.maxFragment, this.capacity, this.reliable, this.stored := maxFragment, capacity, reliable, stored;
      expectedLength, expectedOffset, buffer, readCount, writeCount := 0, 0, [], 0, 0;
    }

    method Get(get: nat, offset: nat) returns (status: Status, config: bytes)
      modifies this`readCount
      ensures readCount == old(readCount) + 1
      ensures status == LinkFailure ==> !reliable
      ensures status == StatusOk ==> get <= maxFragment && offset <= |stored| && config == Fragment(stored, offset, get)
      ensures reliable && get <= maxFragment && offset <= |stored| ==> status == StatusOk
    {
      readCount := readCount + 1;
      if !reliable {
        var lost: bool := *;
        if lost {
          return LinkFailure, [];
        }
      }
      if get > maxFragment {
        return InvalidLength, [];
      }
      if offset > |stored| {
        return InvalidParameter, [];
      }
      return StatusOk, Fragment(stored, offset, get);
    }

    function Total(offset: nat, length: nat): nat
      reads this`expectedLength
    {
      if offset == 0 then length else expectedLength
    }

    function Next(fragment: bytes, offset: nat): bytes
      reads this`buffer
    {
      (if offset == 0 then [] else buffer) + fragment
    }

    /** The first fragment announces the whole length; each later one starts where the last ended. */
    predicate InSequence(fragment: bytes, offset: nat, length: nat)
      reads this`expectedLength, this`expectedOffset
    {
      && |fragment| <= maxFragment
      && (if offset == 0 then HASH_SIZE < length <= capacity else length == 0 && offset == expectedOffset)
      && offset + |fragment| <= Total(offset, length)
    }

    method Set(lib: Library, fragment: bytes, offset: nat, length: nat) returns (status: Status)
      modifies this`stored, this`expectedLength, this`expectedOffset, this`buffer, this`writeCount
      ensures writeCount == old(writeCount) + 1
      ensures var end, total, next := offset + |fragment|, old(Total(offset, length)), old(Next(fragment, offset));
              && (status == StatusOk ==>
                    && old(InSequence(fragment, offset, length))
                    && buffer == next && expectedOffset == end && expectedLength == total
                    && stored == if end == total then next else old(stored))
              && (stored == old(stored) || (end == total && stored == next))
              && (reliable && old(InSequence(fragment, offset, length)) && (end == total ==> HashMatches(lib, next))
                  ==> status == StatusOk)
    {
      writeCount := writeCount + 1;
      if !reliable {
        var requestLost: bool := *;
        if requestLost {
          return LinkFailure;
        }
      }
      if |fragment| > maxFragment {
        return InvalidLength;
      }
      if offset == 0 {
        if length == 0 || length <= HASH_SIZE {
          return InvalidParameter;
        }
        if length > capacity {
          return StorageFull;
        }
      } else {
        if length != 0 {
          return InvalidParameter;
        }
        if offset != expectedOffset {
          return InvalidSequence;
        }
      }
      var total := if offset == 0 then length else expectedLength;
      if offset + |fragment| > total {
        return InvalidParameter;
      }
      var next := (if offset == 0 then [] else buffer) + fragment;
      expectedLength, expectedOffset, buffer := total, offset + |fragment|, next;
      if offset + |fragment| == total {
        if !HashMatches(lib, next) {
          return IntegrityFailure;
        }
        stored := next;
      }
      if !reliable {
        var responseLost: bool := *;
        if responseLost {
          return LinkFailure;
        }
      }
      return StatusOk;
    }
  }

  // ------------------------------------------------------------------ the platform

  datatype Info = Info(largeBlobs: bool, maxMsgSize: nat, maxSerializedArray: nat)

  function EffectiveMaxMsgSize(info: Info): nat {
    if info.maxMsgSize != 0 then info.maxMsgSize else DEFAULT_MAX_MESSAGE
  }

  /** maxFragmentLength; unsigned, so the platform relies on maxMsgSize being above 64. */
  function MaxFragmentLength(info: Info): nat
    requires EffectiveMaxMsgSize(info) > MESSAGE_OVERHEAD
  {
    EffectiveMaxMsgSize(info) - MESSAGE_OVERHEAD
  }

  /** A fragment leaves 64 bytes of a message free; a device that names no maximum has 1024. */
  lemma FragmentLengthIs(info: Info)
    requires EffectiveMaxMsgSize(info) > MESSAGE_OVERHEAD
    ensures MaxFragmentLength(info) == if info.maxMsgSize == 0 then 960 else info.maxMsgSize - 64
  {}

  /** What a stored byte string means as an array. */
  function ParseStored(lib: Library, config: bytes): Result<seq<LargeBlob>, Error> {
    if !HashMatches(lib, config) then Failure(IntegrityCheck)
    else
      var blobs := lib.unmarshal(config[..|config| - HASH_SIZE]);
      if blobs.Some? then Success(blobs.value) else Failure(Syntax)
  }

  /** `s` is an array followed by the hash of its encoding. */
  ghost predicate Holds(lib: Library, s: bytes, blobs: seq<LargeBlob>) {
    exists body :: s == body + lib.hash(body) && lib.unmarshal(body) == Some(blobs)
  }

  lemma HashedIsSplit(lib: Library, s: bytes, body: bytes)
    requires HashIsSized(lib) && s == body + lib.hash(body)
    ensures |s| >= 16 && s[..|s| - 16] == body && s[|s| - 16..] == lib.hash(body)
  {}

  /** A stored string is accepted exactly when it holds an array; one that is not some body and its
      hash, as one with a flipped bit is not, is a checksum error, and a body that is no array a
      syntax error. */
  lemma ParsedExactly(lib: Library, s: bytes, blobs: seq<LargeBlob>)
    requires HashIsSized(lib)
    ensures ParseStored(lib, s) == Success(blobs) <==> Holds(lib, s, blobs)
    ensures ParseStored(lib, s) == Failure(IntegrityCheck) <==> forall body :: s != body + lib.hash(body)
    ensures ParseStored(lib, s) == Failure(Syntax) <==> exists body :: s == body + lib.hash(body) && lib.unmarshal(body) == None
  {
    if HashMatches(lib, s) {
      var body := s[..|s| - HASH_SIZE];
      assert s == body + lib.hash(body);
    }
    forall body | s == body + lib.hash(body)
      ensures HashMatches(lib, s) && body == s[..|s| - HASH_SIZE]
    {
      HashedIsSplit(lib, s, body);
    }
  }

  function Serialized(lib: Library, blobs: seq<LargeBlob>): bytes {
    Trailer(lib, lib.marshal(blobs))
  }

  lemma ParseOfSerialized(lib: Library, blobs: seq<LargeBlob>)
    requires HashIsSized(lib) && CodecIsFaithful(lib)
    ensures Serialized(lib, blobs) == lib.marshal(blobs) + lib.hash(lib.marshal(blobs))
    ensures ParseStored(lib, Serialized(lib, blobs)) == Success(blobs)
    ensures HashMatches(lib, Serialized(lib, blobs)) && |Serialized(lib, blobs)| > HASH_SIZE
  {
    var body := lib.marshal(blobs);
    var s := Serialized(lib, blobs);
    assert |s| == |body| + HASH_SIZE;
    assert s[..|s| - HASH_SIZE] == body && s[|s| - HASH_SIZE..] == lib.hash(body);
  }

  lemma Multiples(d: nat, p: nat, q: nat)
    requires p <= q
    ensures p * d <= q * d
  {}

  lemma DivisionIs(n: nat, d: nat, q: nat, r: nat)
    requires r < d && n == q * d + r
    ensures n / d == q
  {
    var p := n / d;
    assert p * d <= n < p * d + d;
    if p < q {
      Multiples(d, p + 1, q);
    } else if q < p {
      Multiples(d, q + 1, p);
    }
  }

  /** The read loop of getLargeBlobsLocked: it ends at the first fragment that is not full, so one
      empty read follows an array whose length is a multiple of the fragment size. */
  method ReadFragments(device: Authenticator, maxFragmentLength: nat) returns (r: Option<bytes>)
    requires 0 < maxFragmentLength == device.maxFragment
    modifies device`readCount
    ensures r.Some? ==> r.value == device.stored
    ensures r.None? ==> !device.reliable
    ensures r.Some? ==> device.readCount == old(device.readCount) + |device.stored| / maxFragmentLength + 1
  {
    var status, fragment := device.Get(maxFragmentLength, 0);
    if status != StatusOk {
      return None;
    }
    var config := fragment;
    var offset := |fragment|;
    ghost var full := 0;
    while |fragment| == maxFragmentLength
      invariant offset == |config| <= |device.stored| && config == device.stored[..offset]
      invariant |fragment| <= maxFragmentLength && offset == full * maxFragmentLength + |fragment|
      invariant |fragment| < maxFragmentLength ==> offset == |device.stored|
      invariant device.readCount == old(device.readCount) + full + 1
      decreases |device.stored| - offset, |fragment|
    {
      status, fragment := device.Get(maxFragmentLength, offset);
      if status != StatusOk {
        return None;
      }
      assert offset == (full + 1) * maxFragmentLength;
      config := config + fragment;
      offset := offset + |fragment|;
      full := full + 1;
    }
    DivisionIs(|device.stored|, maxFragmentLength, full, |fragment|);
    return Some(config);
  }

  /** getLargeBlobsLocked */
  method GetLargeBlobs(lib: Library, info: Info, device: Authenticator) returns (r: Result<seq<LargeBlob>, Error>)
    requires EffectiveMaxMsgSize(info) > MESSAGE_OVERHEAD && device.maxFragment == MaxFragmentLength(info)
    modifies device`readCount
    ensures !info.largeBlobs ==> r == Failure(NotSupported) && device.readCount == old(device.readCount)
    ensures info.largeBlobs && device.reliable ==>
              r != Failure(Device)
              && device.readCount == old(device.readCount) + |device.stored| / device.maxFragment + 1
    ensures info.largeBlobs && r != Failure(Device) ==>
              r == ParseStored(lib, device.stored)
              && var s := device.stored;
                 && (|s| < 16 || s[|s| - 16..] != lib.hash(s[..|s| - 16]) ==> r == Failure(IntegrityCheck))
                 && (|s| >= 16 && s[|s| - 16..] == lib.hash(s[..|s| - 16]) ==>
                       && (lib.unmarshal(s[..|s| - 16]) == None <==> r == Failure(Syntax))
                       && (r.Success? ==> lib.unmarshal(s[..|s| - 16]) == Some(r.value))
                       && (r.Failure? ==> r.error == Syntax))
  {
    if !info.largeBlobs {
      return Failure(NotSupported);
    }
    var read := ReadFragments(device, MaxFragmentLength(info));
    if read.None? {
      return Failure(Device);
    }
    var config := read.value;
    if |config| < HASH_SIZE {
      return Failure(IntegrityCheck);
    }
    var body := config[..|config| - HASH_SIZE];
    if lib.hash(body) != config[|config| - HASH_SIZE..] {
      return Failure(IntegrityCheck);
    }
    var blobs := lib.unmarshal(body);
    if blobs.None? {
      return Failure(Syntax);
    }
    return Success(blobs.value);
  }

  predicate WellFormed(blobs: seq<LargeBlob>) {
    forall i :: 0 <= i < |blobs| ==> |blobs[i].ciphertext| >= TAG_SIZE && |blobs[i].nonce| == NONCE_SIZE
  }

  /** Everything setLargeBlobsLocked checks before it writes. */
  predicate PlatformAccepts(lib: Library, info: Info, authorized: bool, blobs: seq<LargeBlob>) {
    && info.largeBlobs && WellFormed(blobs) && authorized
    && info.maxSerializedArray != 0 && |Serialized(lib, blobs)| <= info.maxSerializedArray
  }

  /** What one element must be for the array to be encoded. */
  lemma AcceptsExactly(lib: Library, info: Info, authorized: bool, blobs: seq<LargeBlob>)
    requires HashIsSized(lib)
    ensures PlatformAccepts(lib, info, authorized, blobs) <==>
              && info.largeBlobs && authorized && 0 < |lib.marshal(blobs)| + 16 <= info.maxSerializedArray
              && forall b :: b in blobs ==> |b.ciphertext| >= 16 && |b.nonce| == 12
  {
    assert WellFormed(blobs) <==> forall b :: b in blobs ==> |b.ciphertext| >= 16 && |b.nonce| == 12 by {
      if forall b :: b in blobs ==> |b.ciphertext| >= 16 && |b.nonce| == 12 {
        forall i | 0 <= i < |blobs| ensures |blobs[i].ciphertext| >= TAG_SIZE && |blobs[i].nonce| == NONCE_SIZE {
          assert blobs[i] in blobs;
        }
      }
    }
  }

  /** marshalLargeBlobArray */
  method MarshalLargeBlobArray(lib: Library, blobs: seq<LargeBlob>) returns (r: Result<bytes, Error>)
    ensures r == if WellFormed(blobs) then Success(lib.marshal(blobs)) else Failure(Syntax)
  {
    for i := 0 to |blobs|
      invariant forall k :: 0 <= k < i ==> |blobs[k].ciphertext| >= TAG_SIZE && |blobs[k].nonce| == NONCE_SIZE
    {
      if |blobs[i].ciphertext| < TAG_SIZE || |blobs[i].nonce| != NONCE_SIZE {
        return Failure(Syntax);
      }
    }
    return Success(lib.marshal(blobs));
  }

  lemma OneMore(d: nat, q: nat)
    ensures (q + 1) * d == q * d + d
  {}

  /** After q full chunks a last one of r bytes makes q + 1. */
  lemma ChunkCount(n: nat, d: nat, q: nat, r: nat)
    requires 0 < r <= d && n == q * d + r
    ensures (n - 1) / d + 1 == q + 1
  {
    DivisionIs(n - 1, d, q, r - 1);
  }

  lemma NextChunk(s: bytes, offset: nat, end: nat)
    requires offset <= end <= |s|
    ensures s[..offset] + s[offset..end] == s[..end]
    ensures offset == 0 ==> [] + s[offset..end] == s[..end]
    ensures end == |s| ==> s[..end] == s
  {}

  /** The write loop of setLargeBlobsLocked: the length goes with the first fragment only. */
  method WriteFragments(lib: Library, device: Authenticator, serialized: bytes, maxFragmentLength: nat) returns (sent: bool)
    requires 0 < maxFragmentLength == device.maxFragment
    requires HASH_SIZE < |serialized| <= device.capacity && HashMatches(lib, serialized)
    modifies device
    ensures device.readCount == old(device.readCount)
    ensures sent ==> device.stored == serialized
    ensures device.stored == old(device.stored) || device.stored == serialized
    ensures device.reliable ==>
              sent && device.writeCount == old(device.writeCount) + (|serialized| - 1) / maxFragmentLength + 1
  {
    var offset := 0;
    var length := |serialized|;
    ghost var full := 0;
    while offset < |serialized|
      invariant offset <= |serialized| && device.writeCount == old(device.writeCount) + full
      invariant device.readCount == old(device.readCount)
      invariant offset < |serialized| ==> offset == full * maxFragmentLength && device.stored == old(device.stored)
      invariant offset == 0 ==> length == |serialized|
      invariant offset > 0 ==>
                  device.buffer == serialized[..offset] && device.expectedOffset == offset && device.expectedLength == |serialized|
      invariant offset == |serialized| ==>
                  device.stored == serialized && full == (|serialized| - 1) / maxFragmentLength + 1
    {
      var chunk := serialized[offset..Min(offset + maxFragmentLength, |serialized|)];
      if offset > 0 {
        length := 0;
      }
      NextChunk(serialized, offset, offset + |chunk|);
      OneMore(maxFragmentLength, full);
      var status := device.Set(lib, chunk, offset, length);
      if status != StatusOk {
        return false;
      }
      offset := offset + |chunk|;
      full := full + 1;
      if offset == |serialized| {
        ChunkCount(|serialized|, maxFragmentLength, full - 1, |chunk|);
      }
    }
    return true;
  }

  /** setLargeBlobsLocked; `authorized` stands for pinUvAuthProtocolForRequest. */
  method SetLargeBlobs(lib: Library, info: Info, device: Authenticator, authorized: bool, blobs: seq<LargeBlob>)
    returns (r: Result<(), Error>)
    requires HashIsSized(lib) && CodecIsFaithful(lib)
    requires EffectiveMaxMsgSize(info) > MESSAGE_OVERHEAD && device.maxFragment == MaxFragmentLength(info)
    requires device.capacity == info.maxSerializedArray
    modifies device
    ensures device.readCount == old(device.readCount)
    ensures !PlatformAccepts(lib, info, authorized, blobs) ==>
              r.Failure? && device.stored == old(device.stored) && device.writeCount == old(device.writeCount)
    ensures !info.largeBlobs ==> r == Failure(NotSupported)
    ensures info.largeBlobs && !WellFormed(blobs) ==> r == Failure(Syntax)
    ensures info.largeBlobs && WellFormed(blobs) && !authorized ==> r == Failure(Unauthorized)
    ensures info.largeBlobs && WellFormed(blobs) && authorized && info.maxSerializedArray == 0 ==> r == Failure(NotSupported)
    ensures info.largeBlobs && WellFormed(blobs) && authorized && 0 < info.maxSerializedArray < |lib.marshal(blobs)| + 16 ==>
              r == Failure(TooBig)
    ensures r.Success? ==> device.stored == Serialized(lib, blobs)
    ensures device.stored == old(device.stored) || device.stored == Serialized(lib, blobs)
    ensures device.reliable && PlatformAccepts(lib, info, authorized, blobs) ==>
              r.Success?
              && device.writeCount == old(device.writeCount) + (|Serialized(lib, blobs)| - 1) / device.maxFragment + 1
  {
    if !info.largeBlobs {
      return Failure(NotSupported);
    }
    var marshaled := MarshalLargeBlobArray(lib, blobs);
    if marshaled.Failure? {
      return Failure(marshaled.error);
    }
    if !authorized {
      return Failure(Unauthorized);
    }
    var serialized := Trailer(lib, marshaled.value);
    ParseOfSerialized(lib, blobs);
    if info.maxSerializedArray == 0 {
      return Failure(NotSupported);
    }
    if |serialized| > info.maxSerializedArray {
      return Failure(TooBig);
    }
    var sent := WriteFragments(lib, device, serialized, MaxFragmentLength(info));
    return if sent then Success(()) else Failure(Device);
  }

  /** Every accepted array is stored whole and read back whole, also when its length is a multiple
      of the fragment size. */
  method WriteThenRead(lib: Library, info: Info, device: Authenticator, blobs: seq<LargeBlob>)
    returns (r: Result<seq<LargeBlob>, Error>)
    requires HashIsSized(lib) && CodecIsFaithful(lib)
    requires EffectiveMaxMsgSize(info) > MESSAGE_OVERHEAD && device.maxFragment == MaxFragmentLength(info)
    requires device.capacity == info.maxSerializedArray && device.reliable
    requires PlatformAccepts(lib, info, true, blobs)
    modifies device
    ensures r == Success(blobs) && device.stored == Serialized(lib, blobs)
    ensures device.readCount == old(device.readCount) + |Serialized(lib, blobs)| / device.maxFragment + 1
  {
    var written := SetLargeBlobs(lib, info, device, true, blobs);
    r := GetLargeBlobs(lib, info, device);
    ParseOfSerialized(lib, blobs);
  }

  // ------------------------------------------------------ a store keyed by largeBlobKey

  /** crypto.OpenLargeBlob */
  function Open(lib: Library, key: bytes, blob: LargeBlob): Option<bytes> {
    if |key| != KEY_SIZE || |blob.nonce| != NONCE_SIZE then None else lib.open(key, blob)
  }

  /** crypto.DecompressLargeBlobData */
  function Decompress(lib: Library, compressed: bytes, origSize: nat): Option<bytes> {
    if origSize > MAX_BLOB_DATA then None
    else
      var data := lib.inflate(compressed);
      if data.Some? && |data.value| == origSize then data else None
  }

  /** crypto.EncryptLargeBlob with the nonce it drew. */
  function Encrypt(lib: Library, key: bytes, nonce: bytes, data: bytes): Option<LargeBlob> {
    if |key| != KEY_SIZE || |data| > MAX_BLOB_DATA then None
    else Some(LargeBlob(lib.seal(key, nonce, |data|, lib.deflate(data)), nonce, |data|))
  }

  /** What the array holds for a key: nothing, a blob, or an element of that key that does not inflate. */
  datatype Entry = Missing | Blob(data: bytes) | Corrupt

  function Lookup(lib: Library, key: bytes, blobs: seq<LargeBlob>): Entry {
    if blobs == [] then Missing
    else
      var compressed := Open(lib, key, blobs[0]);
      if compressed.None? then Lookup(lib, key, blobs[1..])
      else
        var data := Decompress(lib, compressed.value, blobs[0].origSize);
        if data.Some? then Blob(data.value) else Corrupt
  }

  /** The array with the key's first element replaced, or with `replacement` added. */
  function Updated(lib: Library, key: bytes, blobs: seq<LargeBlob>, replacement: LargeBlob): seq<LargeBlob> {
    if blobs == [] then [replacement]
    else if Open(lib, key, blobs[0]).Some? then [replacement] + blobs[1..]
    else [blobs[0]] + Updated(lib, key, blobs[1..], replacement)
  }

  /** Whether an element authenticates under the key. */
  ghost predicate Opens(lib: Library, key: bytes, blob: LargeBlob) {
    |key| == 32 && |blob.nonce| == 12 && lib.open(key, blob).Some?
  }

  /** A key reads the first element that opens under it, and only that one: its data when it inflates
      to the size the element declares, of at most one megabyte, and otherwise corrupt. */
  lemma {:induction false} FirstToOpenIsRead(lib: Library, key: bytes, blobs: seq<LargeBlob>, i: nat)
    requires i < |blobs| && Opens(lib, key, blobs[i])
    requires forall k :: 0 <= k < i ==> !Opens(lib, key, blobs[k])
    ensures var data := lib.inflate(lib.open(key, blobs[i]).value);
            Lookup(lib, key, blobs) ==
              if data.Some? && |data.value| == blobs[i].origSize <= 1048576 then Blob(data.value) else Corrupt
  {
    if i > 0 {
      assert !Opens(lib, key, blobs[0]);
      forall k | 0 <= k < i - 1 ensures !Opens(lib, key, blobs[1..][k]) {
        assert blobs[1..][k] == blobs[k + 1];
      }
      FirstToOpenIsRead(lib, key, blobs[1..], i - 1);
    }
  }

  lemma {:induction false} NothingOpensIsMissing(lib: Library, key: bytes, blobs: seq<LargeBlob>)
    requires forall b :: b in blobs ==> !Opens(lib, key, b)
    ensures Lookup(lib, key, blobs) == Missing
  {
    if blobs != [] {
      assert blobs[0] in blobs;
      NothingOpensIsMissing(lib, key, blobs[1..]);
    }
  }

  /** The first element that opens is replaced, in place; with none the new one goes to the end. */
  lemma {:induction false} FirstToOpenIsReplaced(lib: Library, key: bytes, blobs: seq<LargeBlob>, replacement: LargeBlob, i: nat)
    requires i < |blobs| && Opens(lib, key, blobs[i])
    requires forall k :: 0 <= k < i ==> !Opens(lib, key, blobs[k])
    ensures Updated(lib, key, blobs, replacement) == blobs[i := replacement]
  {
    if i > 0 {
      assert !Opens(lib, key, blobs[0]);
      forall k | 0 <= k < i - 1 ensures !Opens(lib, key, blobs[1..][k]) {
        assert blobs[1..][k] == blobs[k + 1];
      }
      FirstToOpenIsReplaced(lib, key, blobs[1..], replacement, i - 1);
    }
  }

  lemma {:induction false} NothingOpensIsAppended(lib: Library, key: bytes, blobs: seq<LargeBlob>, replacement: LargeBlob)
    requires forall b :: b in blobs ==> !Opens(lib, key, b)
    ensures Updated(lib, key, blobs, replacement) == blobs + [replacement]
  {
    if blobs != [] {
      assert blobs[0] in blobs;
      NothingOpensIsAppended(lib, key, blobs[1..], replacement);
    }
  }

  ghost predicate OnePerKey(lib: Library, blobs: seq<LargeBlob>) {
    forall i, j, key :: 0 <= i < j < |blobs| && Open(lib, key, blobs[i]).Some? ==> Open(lib, key, blobs[j]).None?
  }

  /** Encryption refuses a key that is not 32 bytes and data above one megabyte, and nothing else. */
  lemma EncryptsUpTo(lib: Library, key: bytes, nonce: bytes, data: bytes)
    ensures Encrypt(lib, key, nonce, data).Some? <==> |key| == 32 && |data| <= 1048576
    ensures Encrypt(lib, key, nonce, data).Some? ==>
              var e := Encrypt(lib, key, nonce, data).value;
              e.nonce == nonce && e.origSize == |data| && e.ciphertext == lib.seal(key, nonce, |data|, lib.deflate(data))
  {}

  lemma EncryptedOpens(lib: Library, key: bytes, nonce: bytes, data: bytes)
    requires AeadIsIdeal(lib) && DeflateIsFaithful(lib) && |nonce| == NONCE_SIZE
    requires Encrypt(lib, key, nonce, data).Some?
    ensures var e := Encrypt(lib, key, nonce, data).value;
            && Open(lib, key, e) == Some(lib.deflate(data))
            && Decompress(lib, lib.deflate(data), e.origSize) == Some(data)
            && (forall other :: other != key ==> Open(lib, other, e).None?)
            && |e.ciphertext| >= TAG_SIZE
  {}

  /** A write is a map update: the key then reads the new data, every other key reads what it read
      before, missing and corrupt included, and the array grows only when the key was missing. */
  lemma {:induction false} WriteIsMapUpdate(lib: Library, key: bytes, nonce: bytes, data: bytes, blobs: seq<LargeBlob>, other: bytes)
    requires AeadIsIdeal(lib) && DeflateIsFaithful(lib) && |nonce| == NONCE_SIZE
    requires Encrypt(lib, key, nonce, data).Some?
    ensures var now := Updated(lib, key, blobs, Encrypt(lib, key, nonce, data).value);
            && Lookup(lib, key, now) == Blob(data)
            && (other != key ==> Lookup(lib, other, now) == Lookup(lib, other, blobs))
            && |now| == |blobs| + (if Lookup(lib, key, blobs) == Missing then 1 else 0)
  {
    EncryptedOpens(lib, key, nonce, data);
    var e := Encrypt(lib, key, nonce, data).value;
    var now := Updated(lib, key, blobs, e);
    if blobs != [] {
      if Open(lib, key, blobs[0]).Some? {
        assert now[1..] == blobs[1..];
      } else {
        WriteIsMapUpdate(lib, key, nonce, data, blobs[1..], other);
        assert now[1..] == Updated(lib, key, blobs[1..], e);
      }
    } else {
      assert now[1..] == [];
    }
  }

  lemma {:induction false} UpdatedElements(lib: Library, key: bytes, blobs: seq<LargeBlob>, replacement: LargeBlob)
    ensures forall x :: x in Updated(lib, key, blobs, replacement) ==> x == replacement || x in blobs
  {
    if blobs != [] && Open(lib, key, blobs[0]).None? {
      UpdatedElements(lib, key, blobs[1..], replacement);
    }
  }

  /** At most one element per key stays so. */
  lemma {:induction false} WriteKeepsOnePerKey(lib: Library, key: bytes, nonce: bytes, data: bytes, blobs: seq<LargeBlob>)
    requires AeadIsIdeal(lib) && DeflateIsFaithful(lib) && |nonce| == NONCE_SIZE
    requires Encrypt(lib, key, nonce, data).Some? && OnePerKey(lib, blobs)
    ensures OnePerKey(lib, Updated(lib, key, blobs, Encrypt(lib, key, nonce, data).value))
  {
    EncryptedOpens(lib, key, nonce, data);
    var e := Encrypt(lib, key, nonce, data).value;
    var now := Updated(lib, key, blobs, e);
    if blobs != [] {
      forall j | 0 < j < |blobs| ensures blobs[j] == blobs[1..][j - 1] {}
      if Open(lib, key, blobs[0]).None? {
        WriteKeepsOnePerKey(lib, key, nonce, data, blobs[1..]);
        UpdatedElements(lib, key, blobs[1..], e);
        var tail := Updated(lib, key, blobs[1..], e);
        forall i, j, k | 0 <= i < j < |now| && Open(lib, k, now[i]).Some?
          ensures Open(lib, k, now[j]).None?
        {
          assert now[j] == tail[j - 1] && tail[j - 1] in tail;
          if i > 0 {
            assert now[i] == tail[i - 1];
          }
        }
      }
    }
  }

  // ------------------------------------------------ resolveLegacyLargeBlobOutputs

  datatype Output = Output(blob: Option<bytes>, written: Option<bool>)

  const EMPTY_OUTPUT := Output(None, None)

  /** The read scan of one assertion's key. */
  method ReadEntry(lib: Library, key: bytes, blobs: seq<LargeBlob>) returns (r: Entry)
    ensures r == Lookup(lib, key, blobs)
  {
    for i := 0 to |blobs|
      invariant Lookup(lib, key, blobs) == Lookup(lib, key, blobs[i..])
    {
      var compressed := Open(lib, key, blobs[i]);
      assert blobs[i..][1..] == blobs[i + 1..];
      if compressed.Some? {
        var data := Decompress(lib, compressed.value, blobs[i].origSize);
        return if data.Some? then Blob(data.value) else Corrupt;
      }
    }
    return Missing;
  }

  lemma ReplaceHere(lib: Library, key: bytes, blobs: seq<LargeBlob>, i: nat, replacement: LargeBlob)
    requires i < |blobs| && Open(lib, key, blobs[i]).Some?
    ensures blobs[..i] + Updated(lib, key, blobs[i..], replacement) == blobs[i := replacement]
  {
    assert blobs[i..][0] == blobs[i] && blobs[i..][1..] == blobs[i + 1..];
    assert blobs[i := replacement] == blobs[..i] + ([replacement] + blobs[i + 1..]);
  }

  lemma ReplaceLater(lib: Library, key: bytes, blobs: seq<LargeBlob>, i: nat, replacement: LargeBlob)
    requires i < |blobs| && Open(lib, key, blobs[i]).None?
    ensures blobs[..i] + Updated(lib, key, blobs[i..], replacement) == blobs[..i + 1] + Updated(lib, key, blobs[i + 1..], replacement)
  {
    assert blobs[i..][0] == blobs[i] && blobs[i..][1..] == blobs[i + 1..];
    assert blobs[..i + 1] == blobs[..i] + [blobs[i]];
    Associate(blobs[..i], [blobs[i]], Updated(lib, key, blobs[i + 1..], replacement));
  }

  /** The write scan: replace the first element that opens under the key, else append. */
  method ReplaceEntry(lib: Library, key: bytes, blobs: seq<LargeBlob>, replacement: LargeBlob) returns (now: seq<LargeBlob>)
    ensures now == Updated(lib, key, blobs, replacement)
  {
    now := blobs;
    for i := 0 to |blobs|
      invariant now == blobs
      invariant Updated(lib, key, blobs, replacement) == blobs[..i] + Updated(lib, key, blobs[i..], replacement)
    {
      if Open(lib, key, blobs[i]).Some? {
        ReplaceHere(lib, key, blobs, i, replacement);
        now := now[i := replacement];
        return;
      }
      ReplaceLater(lib, key, blobs, i, replacement);
    }
    assert blobs[..|blobs|] == blobs && blobs[|blobs|..] == [];
    now := now + [replacement];
  }

  /** What a successful read must report for one assertion. */
  predicate ReadsAs(lib: Library, key: bytes, blobs: seq<LargeBlob>, output: Output) {
    && output.written.None?
    && if key == [] then output.blob.None?
       else match Lookup(lib, key, blobs)
            case Missing => output.blob.None?
            case Blob(data) => output.blob == Some(data)
            case Corrupt => false
  }

  function NoOutputs(n: nat): seq<Output> {
    seq(n, _ => EMPTY_OUTPUT)
  }

  /** Why an assertion's key stops the whole read. */
  ghost predicate Offends(lib: Library, blobs: seq<LargeBlob>, key: bytes, error: Error) {
    || (|key| !in {0, 32} && error == SpecViolation)
    || (|key| == 32 && Lookup(lib, key, blobs).Corrupt? && error == BlobData)
  }

  ghost predicate ReadResult(lib: Library, blobs: seq<LargeBlob>, keys: seq<bytes>, r: Result<seq<Output>, Error>) {
    && (r.Success? ==> |r.value| == |keys| && forall i :: 0 <= i < |keys| ==> ReadsAs(lib, keys[i], blobs, r.value[i]))
    && (r.Failure? ==>
          exists i :: 0 <= i < |keys| && Offends(lib, blobs, keys[i], r.error)
                      && forall k, e :: 0 <= k < i ==> !Offends(lib, blobs, keys[k], e))
    && (r.Success? ==> forall i, e :: 0 <= i < |keys| ==> !Offends(lib, blobs, keys[i], e))
  }

  /** What a read may answer: what the stored array says, or outputs without a blob. */
  ghost predicate ReadAnswer(lib: Library, info: Info, reliable: bool, stored: bytes, keys: seq<bytes>, r: Result<seq<Output>, Error>) {
    var parsed := ParseStored(lib, stored);
    && (!info.largeBlobs || parsed.Failure? ==> r == Success(NoOutputs(|keys|)))
    && (info.largeBlobs && parsed.Success? ==>
          ReadResult(lib, parsed.value, keys, r) || (!reliable && r == Success(NoOutputs(|keys|))))
  }

  /** The read half: an array that cannot be read is reported as outputs without a blob. */
  method ResolveRead(lib: Library, info: Info, device: Authenticator, keys: seq<bytes>) returns (r: Result<seq<Output>, Error>)
    requires EffectiveMaxMsgSize(info) > MESSAGE_OVERHEAD && device.maxFragment == MaxFragmentLength(info)
    modifies device`readCount
    ensures ReadAnswer(lib, info, device.reliable, device.stored, keys, r)
    // Nothing is read from a string that does not end in the hash of the rest.
    ensures var s := device.stored;
            |s| < 16 || s[|s| - 16..] != lib.hash(s[..|s| - 16]) ==>
              r == Success(seq(|keys|, _ => Output(None, None)))
  {
    var outputs := NoOutputs(|keys|);
    if |keys| == 0 {
      return Success(outputs);
    }
    var stored := GetLargeBlobs(lib, info, device);
    if stored.Failure? {
      return Success(outputs);
    }
    var blobs := stored.value;
    for i := 0 to |keys|
      invariant |outputs| == |keys|
      invariant forall k :: i <= k < |keys| ==> outputs[k] == EMPTY_OUTPUT
      invariant forall k :: 0 <= k < i ==> ReadsAs(lib, keys[k], blobs, outputs[k])
      invariant forall k, e :: 0 <= k < i ==> !Offends(lib, blobs, keys[k], e)
    {
      if |keys[i]| == 0 {
        continue;
      }
      if |keys[i]| != KEY_SIZE {
        assert Offends(lib, blobs, keys[i], SpecViolation);
        return Failure(SpecViolation);
      }
      var entry := ReadEntry(lib, keys[i], blobs);
      match entry {
        case Missing =>
        case Blob(data) => outputs := outputs[i := Output(Some(data), None)];
        case Corrupt =>
          assert Offends(lib, blobs, keys[i], BlobData);
          return Failure(BlobData);
      }
    }
    return Success(outputs);
  }

  /** The write half, for the first assertion's key; `nonce` is the one EncryptLargeBlob drew. */
  method ResolveWrite(lib: Library, info: Info, device: Authenticator, authorized: bool,
                      key: bytes, nonce: bytes, data: bytes) returns (r: Result<bool, Error>)
    requires Ideal(lib) && |nonce| == NONCE_SIZE
    requires EffectiveMaxMsgSize(info) > MESSAGE_OVERHEAD && device.maxFragment == MaxFragmentLength(info)
    requires device.capacity == info.maxSerializedArray
    modifies device
    ensures r == Failure(SpecViolation) <==> |key| !in {0, 32}
    ensures r.Failure? ==> r.error == SpecViolation || (r.error == BlobData && |key| == 32 && |data| > 1048576)
    ensures |key| == 0 || (|key| == 32 && !info.largeBlobs) ==> r == Success(false) && device.stored == old(device.stored)
    // An array that is not followed by its hash, or is no array, is left as it is.
    ensures |key| == 32 && (forall blobs :: !Holds(lib, old(device.stored), blobs)) ==>
              r == Success(false) && device.stored == old(device.stored)
    ensures var before := ParseStored(lib, old(device.stored));
            var replacement := Encrypt(lib, key, nonce, data);
            && (r == Success(true) ==>
                  && before.Success? && replacement.Some?
                  && device.stored == Serialized(lib, Updated(lib, key, before.value, replacement.value)))
            && (r != Success(true) && device.reliable ==> device.stored == old(device.stored))
            && (device.reliable && info.largeBlobs && |key| == 32 && before.Success? && replacement.None? ==>
                  r == Failure(BlobData))
            // On a reliable link the write happens exactly when the array can be read and rewritten.
            && (device.reliable && info.largeBlobs && before.Success? && replacement.Some? ==>
                  r == Success(PlatformAccepts(lib, info, authorized, Updated(lib, key, before.value, replacement.value))))
  {
    if |key| == 0 {
      return Success(false);
    }
    if |key| != KEY_SIZE {
      return Failure(SpecViolation);
    }
    var stored := GetLargeBlobs(lib, info, device);
    if stored.Failure? {
      return Success(false);
    }
    ParsedExactly(lib, device.stored, stored.value);
    var replacement := Encrypt(lib, key, nonce, data);
    if replacement.None? {
      return Failure(BlobData);
    }
    var blobs := ReplaceEntry(lib, key, stored.value, replacement.value);
    var saved := SetLargeBlobs(lib, info, device, authorized, blobs);
    if saved.Failure? {
      return Success(false);
    }
    return Success(true);
  }

  function Reported(r: Result<Option<seq<Output>>, Error>): Result<seq<Output>, Error> {
    if r.Failure? then Failure(r.error) else Success(if r.value.Some? then r.value.value else [])
  }

  /** resolveLegacyLargeBlobOutputs for the legacy backend. */
  method ResolveLegacyLargeBlobOutputs(lib: Library, info: Info, device: Authenticator, authorized: bool, read: bool,
                                       write: Option<bytes>, nonce: bytes, keys: seq<bytes>)
    returns (r: Result<Option<seq<Output>>, Error>)
    requires Ideal(lib) && |nonce| == NONCE_SIZE
    requires EffectiveMaxMsgSize(info) > MESSAGE_OVERHEAD && device.maxFragment == MaxFragmentLength(info)
    requires device.capacity == info.maxSerializedArray
    modifies device
    ensures r == Success(None) <==> !read && write.None?
    ensures read || write.None? || keys == [] ==> device.stored == old(device.stored)
    ensures r.Success? && r.value.Some? ==> |r.value.value| == |keys|
    ensures read ==> (r.Success? ==> r.value.Some?) && ReadAnswer(lib, info, device.reliable, device.stored, keys, Reported(r))
    ensures r.Success? && r.value.Some? && !read && keys != [] ==>
              var outputs := r.value.value;
              && outputs[0].written.Some? && outputs[0].blob.None?
              && (forall i :: 1 <= i < |keys| ==> outputs[i] == EMPTY_OUTPUT)
              && var before := ParseStored(lib, old(device.stored));
                 var replacement := Encrypt(lib, keys[0], nonce, write.value);
                 && (outputs[0].written.value ==>
                       before.Success? && replacement.Some?
                       && device.stored == Serialized(lib, Updated(lib, keys[0], before.value, replacement.value)))
                 && (!outputs[0].written.value && device.reliable ==> device.stored == old(device.stored))
                 && (device.reliable && info.largeBlobs && before.Success? && replacement.Some? ==>
                       outputs[0].written.value
                       == PlatformAccepts(lib, info, authorized, Updated(lib, keys[0], before.value, replacement.value)))
    ensures !read && write.Some? && keys != [] && |keys[0]| == 32 && |write.value| <= 1048576 ==> r.Success?
  {
    if !read && write.None? {
      return Success(None);
    }
    var outputs := NoOutputs(|keys|);
    if |keys| == 0 {
      return Success(Some(outputs));
    }
    if read {
      var resolved := ResolveRead(lib, info, device, keys);
      return if resolved.Success? then Success(Some(resolved.value)) else Failure(resolved.error);
    }
    var written := ResolveWrite(lib, info, device, authorized, keys[0], nonce, write.value);
    if written.Failure? {
      return Failure(written.error);
    }
    outputs := outputs[0 := Output(None, Some(written.value))];
    return Success(Some(outputs));
  }

  /** End to end: after a successful write under one key, what the authenticator stores reads as the
      new data under that key and as before under every other. */
  lemma WrittenArrayReadsBack(lib: Library, before: bytes, now: bytes, key: bytes, nonce: bytes, data: bytes, other: bytes)
    requires Ideal(lib) && |nonce| == NONCE_SIZE && Encrypt(lib, key, nonce, data).Some? && other != key
    requires ParseStored(lib, before).Success?
    requires now == Serialized(lib, Updated(lib, key, ParseStored(lib, before).value, Encrypt(lib, key, nonce, data).value))
    ensures ParseStored(lib, now).Success?
    ensures Lookup(lib, key, ParseStored(lib, now).value) == Blob(data)
    ensures Lookup(lib, other, ParseStored(lib, now).value) == Lookup(lib, other, ParseStored(lib, before).value)
  {
    var blobs := ParseStored(lib, before).value;
    WriteIsMapUpdate(lib, key, nonce, data, blobs, other);
    ParseOfSerialized(lib, Updated(lib, key, blobs, Encrypt(lib, key, nonce, data).value));
  }

  lemma {:induction false} UpdatedIsWellFormed(lib: Library, key: bytes, blobs: seq<LargeBlob>, replacement: LargeBlob)
    requires WellFormed(blobs) && |replacement.ciphertext| >= TAG_SIZE && |replacement.nonce| == NONCE_SIZE
    ensures WellFormed(Updated(lib, key, blobs, replacement))
  {
    UpdatedElements(lib, key, blobs, replacement);
    var now := Updated(lib, key, blobs, replacement);
    forall i | 0 <= i < |now| ensures |now[i].ciphertext| >= TAG_SIZE && |now[i].nonce| == NONCE_SIZE {
      assert now[i] in now;
    }
  }

  lemma OtherReadsAlike(lib: Library, blobs: seq<LargeBlob>, now: seq<LargeBlob>, key: bytes, other: bytes, data: bytes,
                        earlier: Result<seq<Output>, Error>, later: Result<seq<Output>, Error>)
    requires |key| == 32 && Lookup(lib, key, now) == Blob(data) && Lookup(lib, other, now) == Lookup(lib, other, blobs)
    requires ReadResult(lib, blobs, [other], earlier) && ReadResult(lib, now, [key, other], later)
    ensures earlier.Success? ==>
              |earlier.value| == 1 && later == Success([Output(Some(data), None), earlier.value[0]])
    ensures earlier.Failure? ==> later == earlier
  {
    forall e ensures Offends(lib, blobs, other, e) <==> Offends(lib, now, other, e) {}
    forall e ensures !Offends(lib, now, key, e) {}
    assert [other][0] == other && [key, other][0] == key && [key, other][1] == other;
    if earlier.Failure? {
      assert Offends(lib, blobs, other, earlier.error);
      assert Offends(lib, now, [key, other][1], earlier.error);
    } else {
      assert forall e :: !Offends(lib, blobs, [other][0], e);
      assert ReadsAs(lib, [other][0], blobs, earlier.value[0]);
      assert later.Success?;
      assert ReadsAs(lib, [key, other][0], now, later.value[0]) && ReadsAs(lib, [key, other][1], now, later.value[1]);
      assert later.value == [Output(Some(data), None), earlier.value[0]];
    }
  }

  /** The three calls of a relying party that reads, writes and reads again, over one stored array:
      the write is reported, the key reads the new data back, and another key what it read before,
      whether that was a blob, nothing, or an error. */
  method ReadWriteRead(lib: Library, info: Info, device: Authenticator, key: bytes, other: bytes, nonce: bytes, data: bytes,
                       ghost blobs: seq<LargeBlob>)
    returns (earlier: Result<Option<seq<Output>>, Error>, written: Result<Option<seq<Output>>, Error>,
             later: Result<Option<seq<Output>>, Error>)
    requires Ideal(lib) && |nonce| == 12 && |key| == 32 && |data| <= 1048576 && other != key
    requires EffectiveMaxMsgSize(info) > MESSAGE_OVERHEAD && device.maxFragment == MaxFragmentLength(info)
    requires info.largeBlobs && device.capacity == info.maxSerializedArray && device.reliable
    requires Holds(lib, device.stored, blobs) && WellFormed(blobs)
    requires Encrypt(lib, key, nonce, data).Some?
             && |Serialized(lib, Updated(lib, key, blobs, Encrypt(lib, key, nonce, data).value))| <= info.maxSerializedArray
    modifies device
    ensures written == Success(Some([Output(None, Some(true))]))
    ensures earlier.Success? ==>
              earlier.value.Some? && |earlier.value.value| == 1
              && later == Success(Some([Output(Some(data), None), earlier.value.value[0]]))
    ensures earlier.Failure? ==> later == earlier
  {
    ParsedExactly(lib, device.stored, blobs);
    ghost var now := Updated(lib, key, blobs, Encrypt(lib, key, nonce, data).value);
    EncryptedOpens(lib, key, nonce, data);
    UpdatedIsWellFormed(lib, key, blobs, Encrypt(lib, key, nonce, data).value);
    ParseOfSerialized(lib, now);
    WriteIsMapUpdate(lib, key, nonce, data, blobs, other);
    earlier := ResolveLegacyLargeBlobOutputs(lib, info, device, true, true, None, nonce, [other]);
    assert PlatformAccepts(lib, info, true, now);
    written := ResolveLegacyLargeBlobOutputs(lib, info, device, true, false, Some(data), nonce, [key]);
    assert written.value.value == [Output(None, Some(true))];
    later := ResolveLegacyLargeBlobOutputs(lib, info, device, true, true, None, nonce, [key, other]);
    OtherReadsAlike(lib, blobs, now, key, other, data, Reported(earlier), Reported(later));
  }
}
