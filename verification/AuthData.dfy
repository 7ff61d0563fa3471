/** Authenticator data (protocol/helpers.go:34-111), section 6.1 of WebAuthn Level 3. */
module AuthData {
  import opened Bytes

  /** A decoded CBOR item and the number of bytes it was read from. */
  datatype Decoded<+V> = Decoded(value: V, read: nat)

  type Decoder<!V> = bytes -> Option<Decoded<V>>

  /** The CBOR decoder for COSE keys, and the one for extensions, which says whether it read a map
      or a null. Each reads one item from the front of its input. */
  datatype Decoders<!K> = Decoders(key: Decoder<K>, extensions: Decoder<bool>)

  ghost predicate DelimitsItself<V>(decode: Decoder<V>, s: bytes) {
    match decode(s)
    case None => true
    case Some(d) => 0 < d.read <= |s| && forall t: bytes :: decode(s[..d.read] + t) == Some(d)
  }

  /** What is read does not depend on what follows the item. */
  ghost predicate SelfDelimiting<V>(decode: Decoder<V>) {
    forall s: bytes :: DelimitsItself(decode, s)
  }

  ghost predicate Prefix<K>(dec: Decoders<K>) {
    SelfDelimiting(dec.key) && SelfDelimiting(dec.extensions)
  }

  datatype Credential<+K> = Credential(aaguid: bytes, id: bytes, publicKey: K, encodedKey: bytes)

  datatype AuthenticatorData<+K> =
    AuthenticatorData(rpIdHash: bytes, flags: byte, signCount: nat, credential: Option<Credential<K>>, extensions: Option<bytes>)

  datatype ParseError =
    | TooShort | ReservedFlags | MissingAaguid | MissingIdLength | TruncatedId | MissingKey | InvalidKey
    | MissingExtensions | InvalidExtensions | ExtensionsNotMap | TrailingBytes

  /** Flag bit n of the flags byte. */
  predicate Flag(flags: byte, n: nat)
    requires n < 8
  {
    flags / [1, 2, 4, 8, 16, 32, 64, 128][n] % 2 == 1
  }

  const ATTESTED := 6
  const EXTENSIONS := 7

  predicate Reserved(flags: byte) {
    Flag(flags, 1) || Flag(flags, 5)
  }

  function Uint32(s: bytes): nat
    requires |s| == 4
  {
    Uint16(s, 0) * 0x1_0000 + Uint16(s, 2)
  }

  function PutUint32(n: nat): bytes
    requires n < 0x1_0000_0000
  {
    PutUint16(n / 0x1_0000) + PutUint16(n % 0x1_0000)
  }

  // ------------------------------------------------------------------- the structure

  ghost predicate ValidCredential<K>(dec: Decoders<K>, c: Credential<K>) {
    |c.aaguid| == 16 && |c.id| < 0x1_0000 && dec.key(c.encodedKey) == Some(Decoded(c.publicKey, |c.encodedKey|))
  }

  ghost predicate ValidExtensions<K>(dec: Decoders<K>, e: bytes) {
    dec.extensions(e) == Some(Decoded(true, |e|))
  }

  ghost predicate Valid<K>(dec: Decoders<K>, a: AuthenticatorData<K>) {
    && |a.rpIdHash| == 32 && a.signCount < 0x1_0000_0000 && !Reserved(a.flags)
    && (Flag(a.flags, ATTESTED) <==> a.credential.Some?)
    && (Flag(a.flags, EXTENSIONS) <==> a.extensions.Some?)
    && (a.credential.Some? ==> ValidCredential(dec, a.credential.value))
    && (a.extensions.Some? ==> ValidExtensions(dec, a.extensions.value))
  }

  function EncodeCredential<K>(c: Credential<K>): bytes
    requires |c.id| < 0x1_0000
  {
    c.aaguid + PutUint16(|c.id|) + c.id + c.encodedKey
  }

  function EncodeBody<K>(a: AuthenticatorData<K>): bytes
    requires a.credential.Some? ==> |a.credential.value.id| < 0x1_0000
  {
    (if a.credential.Some? then EncodeCredential(a.credential.value) else [])
    + (if a.extensions.Some? then a.extensions.value else [])
  }

  function Encode<K>(a: AuthenticatorData<K>): bytes
    requires a.signCount < 0x1_0000_0000
    requires a.credential.Some? ==> |a.credential.value.id| < 0x1_0000
  {
    a.rpIdHash + [a.flags] + PutUint32(a.signCount) + EncodeBody(a)
  }

  ghost predicate Encodes<K>(dec: Decoders<K>, a: AuthenticatorData<K>, data: bytes) {
    Valid(dec, a) && Encode(a) == data
  }

  // ------------------------------------------------------------------------ parsing

  /** The credential at the front of `s` and the number of bytes it takes. */
  function ParseCredential<K>(dec: Decoders<K>, s: bytes): Result<(Credential<K>, nat), ParseError> {
    if |s| < 16 then Failure(MissingAaguid)
    else if |s| < 18 then Failure(MissingIdLength)
    else
      var end := 18 + Uint16(s, 16);
      if |s| < end then Failure(TruncatedId)
      else if |s| == end then Failure(MissingKey)
      else
        match dec.key(s[end..])
        case None => Failure(InvalidKey)
        case Some(d) =>
          if d.read > |s| - end then Failure(InvalidKey)
          else Success((Credential(s[..16], s[18..end], d.value, s[end..end + d.read]), end + d.read))
  }

  function ParseExtensions<K>(dec: Decoders<K>, s: bytes): Result<bytes, ParseError> {
    if s == [] then Failure(MissingExtensions)
    else
      match dec.extensions(s)
      case None => Failure(InvalidExtensions)
      case Some(d) =>
        if !d.value then Failure(ExtensionsNotMap)
        else if d.read != |s| then Failure(TrailingBytes)
        else Success(s)
  }

  function ParseBody<K>(dec: Decoders<K>, header: AuthenticatorData<K>, s: bytes): Result<AuthenticatorData<K>, ParseError> {
    if Flag(header.flags, EXTENSIONS) then
      (match ParseExtensions(dec, s)
       case Failure(error) => Failure(error)
       case Success(e) => Success(header.(extensions := Some(e))))
    else if s != [] then Failure(TrailingBytes)
    else Success(header)
  }

  /** Everything behind the 37 bytes of the header. */
  function ParseRest<K>(dec: Decoders<K>, header: AuthenticatorData<K>, s: bytes): Result<AuthenticatorData<K>, ParseError> {
    if Flag(header.flags, ATTESTED) then
      match ParseCredential(dec, s)
      case Failure(error) => Failure(error)
      case Success((c, n)) =>
        if n > |s| then Failure(InvalidKey) else ParseBody(dec, header.(credential := Some(c)), s[n..])
    else ParseBody(dec, header, s)
  }

  function Header<K>(data: bytes): AuthenticatorData<K>
    requires |data| >= 37
  {
    AuthenticatorData(data[..32], data[32], Uint32(data[33..37]), None, None)
  }

  function Parse<K>(dec: Decoders<K>, data: bytes): Result<AuthenticatorData<K>, ParseError> {
    if |data| < 37 then Failure(TooShort)
    else if Reserved(data[32]) then Failure(ReservedFlags)
    else ParseRest(dec, Header(data), data[37..])
  }

  lemma Uint32Inverse(n: nat, s: bytes)
    requires n < 0x1_0000_0000 && |s| == 4
    ensures Uint32(PutUint32(n)) == n
    ensures Uint32(s) < 0x1_0000_0000 && PutUint32(Uint32(s)) == s
  {
    assert Uint32(PutUint32(n)) == n / 0x1_0000 * 0x1_0000 + n % 0x1_0000;
    var high, low := Uint16(s, 0), Uint16(s, 2);
    assert Uint32(s) / 0x1_0000 == high && Uint32(s) % 0x1_0000 == low;
  }

  lemma CredentialSound<K>(dec: Decoders<K>, s: bytes)
    requires Prefix(dec) && ParseCredential(dec, s).Success?
    ensures var (c, n) := ParseCredential(dec, s).value;
            n <= |s| && ValidCredential(dec, c) && EncodeCredential(c) == s[..n]
  {
    var end := 18 + Uint16(s, 16);
    assert DelimitsItself(dec.key, s[end..]);
    var d := dec.key(s[end..]).value;
    var (c, n) := ParseCredential(dec, s).value;
    assert s[end..][..d.read] == c.encodedKey;
    assert c.encodedKey + [] == c.encodedKey;
    assert s[..n] == s[..16] + s[16..18] + s[18..end] + s[end..n];
    assert PutUint16(|c.id|) == s[16..18];
  }

  lemma CredentialComplete<K>(dec: Decoders<K>, c: Credential<K>, rest: bytes)
    requires Prefix(dec) && ValidCredential(dec, c)
    ensures ParseCredential(dec, EncodeCredential(c) + rest) == Success((c, |EncodeCredential(c)|))
  {
    var s := EncodeCredential(c) + rest;
    var end := 18 + |c.id|;
    assert DelimitsItself(dec.key, c.encodedKey);
    assert c.encodedKey[..|c.encodedKey|] == c.encodedKey;
    assert s == c.aaguid + PutUint16(|c.id|) + c.id + c.encodedKey + rest;
    assert s[..16] == c.aaguid;
    assert s[16..18] == PutUint16(|c.id|);
    assert s[18..end] == c.id;
    assert s[end..] == c.encodedKey + rest;
    assert s[end..end + |c.encodedKey|] == c.encodedKey;
    assert Uint16(s, 16) == Uint16(s[16..18], 0);
  }

  lemma BodySound<K>(dec: Decoders<K>, header: AuthenticatorData<K>, s: bytes)
    requires ParseBody(dec, header, s).Success? && header.extensions.None?
    ensures var a := ParseBody(dec, header, s).value;
            && a == header.(extensions := a.extensions)
            && (Flag(a.flags, EXTENSIONS) <==> a.extensions.Some?)
            && (a.extensions.Some? ==> ValidExtensions(dec, a.extensions.value))
            && (if a.extensions.Some? then a.extensions.value else []) == s
  {}

  /** What ParseRest promises of the structure it returns. */
  ghost predicate RestIs<K>(dec: Decoders<K>, header: AuthenticatorData<K>, s: bytes, a: AuthenticatorData<K>) {
    && a == header.(credential := a.credential, extensions := a.extensions)
    && (Flag(a.flags, ATTESTED) <==> a.credential.Some?) && (a.credential.Some? ==> ValidCredential(dec, a.credential.value))
    && (Flag(a.flags, EXTENSIONS) <==> a.extensions.Some?) && (a.extensions.Some? ==> ValidExtensions(dec, a.extensions.value))
    && EncodeBody(a) == s
  }

  lemma AttestedSound<K>(dec: Decoders<K>, header: AuthenticatorData<K>, s: bytes)
    requires Prefix(dec) && header.credential.None? && header.extensions.None?
    requires Flag(header.flags, ATTESTED) && ParseRest(dec, header, s).Success?
    ensures RestIs(dec, header, s, ParseRest(dec, header, s).value)
  {
    CredentialSound(dec, s);
    var (c, n) := ParseCredential(dec, s).value;
    BodySound(dec, header.(credential := Some(c)), s[n..]);
    assert s[..n] + s[n..] == s;
  }

  lemma RestSound<K>(dec: Decoders<K>, header: AuthenticatorData<K>, s: bytes)
    requires Prefix(dec) && header.credential.None? && header.extensions.None? && ParseRest(dec, header, s).Success?
    ensures RestIs(dec, header, s, ParseRest(dec, header, s).value)
  {
    if Flag(header.flags, ATTESTED) {
      AttestedSound(dec, header, s);
    } else {
      BodySound(dec, header, s);
      assert [] + s == s;
    }
  }

  lemma Headed(data: bytes)
    requires |data| >= 37
    ensures Uint32(data[33..37]) < 0x1_0000_0000
    ensures data[..32] + [data[32]] + PutUint32(Uint32(data[33..37])) + data[37..] == data
  {
    Uint32Inverse(0, data[33..37]);
  }

  /** Every accepted input is fully partitioned: it is the encoding of the structure returned. */
  lemma ParseSound<K>(dec: Decoders<K>, data: bytes)
    requires Prefix(dec) && Parse(dec, data).Success?
    ensures Encodes(dec, Parse(dec, data).value, data)
  {
    Headed(data);
    RestSound(dec, Header(data), data[37..]);
  }

  lemma BodyComplete<K>(dec: Decoders<K>, header: AuthenticatorData<K>, e: Option<bytes>)
    requires Prefix(dec) && header.extensions.None?
    requires (Flag(header.flags, EXTENSIONS) <==> e.Some?) && (e.Some? ==> ValidExtensions(dec, e.value))
    ensures ParseBody(dec, header, if e.Some? then e.value else []) == Success(header.(extensions := e))
  {
    if e.Some? {
      assert DelimitsItself(dec.extensions, e.value);
    }
  }

  lemma RestComplete<K>(dec: Decoders<K>, a: AuthenticatorData<K>)
    requires Prefix(dec) && Valid(dec, a)
    ensures ParseRest(dec, a.(credential := None, extensions := None), EncodeBody(a)) == Success(a)
  {
    var header := a.(credential := None, extensions := None);
    var tail: bytes := if a.extensions.Some? then a.extensions.value else [];
    if a.credential.Some? {
      var c := a.credential.value;
      CredentialComplete(dec, c, tail);
      assert (EncodeCredential(c) + tail)[|EncodeCredential(c)|..] == tail;
      BodyComplete(dec, header.(credential := Some(c)), a.extensions);
    } else {
      assert [] + tail == tail;
      BodyComplete(dec, header, a.extensions);
    }
  }

  lemma EncodedHeader<K>(a: AuthenticatorData<K>)
    requires |a.rpIdHash| == 32 && a.signCount < 0x1_0000_0000
    requires a.credential.Some? ==> |a.credential.value.id| < 0x1_0000
    ensures var data := Encode(a);
            |data| >= 37 && Header(data) == a.(credential := None, extensions := None) && data[37..] == EncodeBody(a)
  {
    Uint32Inverse(a.signCount, PutUint32(0));
    assert Encode(a)[..32] == a.rpIdHash && Encode(a)[33..37] == PutUint32(a.signCount);
  }

  /** Parsing the encoding of any valid structure returns it. */
  lemma ParseComplete<K>(dec: Decoders<K>, a: AuthenticatorData<K>)
    requires Prefix(dec) && Valid(dec, a)
    ensures Parse(dec, Encode(a)) == Success(a)
  {
    EncodedHeader(a);
    RestComplete(dec, a);
  }

  /** Exactly the encodings of valid structures are accepted, each as its own structure. */
  lemma ParseExact<K(!new)>(dec: Decoders<K>, data: bytes)
    requires Prefix(dec)
    ensures forall a :: Encodes(dec, a, data) <==> Parse(dec, data) == Success(a)
  {
    forall a ensures Encodes(dec, a, data) <==> Parse(dec, data) == Success(a) {
      if Encodes(dec, a, data) {
        ParseComplete(dec, a);
      } else if Parse(dec, data) == Success(a) {
        ParseSound(dec, data);
      }
    }
  }

  // ------------------------------------------------------------- the layout, byte by byte

  /** Bit 6 of the flags byte: attested credential data follows the header. */
  ghost predicate HasCredential(data: bytes)
    requires |data| >= 37
  {
    data[32] / 64 % 2 == 1
  }

  /** Where the COSE key starts: behind 16 bytes of AAGUID, 2 of length and the ID. */
  ghost function KeyAt(data: bytes): nat
    requires |data| >= 55
  {
    55 + data[53] as int * 256 + data[54] as int
  }

  /** Where the extensions start. */
  ghost function ExtensionsAt<K>(dec: Decoders<K>, data: bytes): nat
    requires |data| >= 37
    requires HasCredential(data) ==> |data| >= 55 && |data| > KeyAt(data) && dec.key(data[KeyAt(data)..]).Some?
  {
    if HasCredential(data) then KeyAt(data) + dec.key(data[KeyAt(data)..]).value.read else 37
  }

  lemma HeaderLayout<K>(data: bytes)
    requires |data| >= 37
    ensures Header<K>(data) ==
            AuthenticatorData(data[..32], data[32],
                              data[33] as int * 16777216 + data[34] as int * 65536 + data[35] as int * 256 + data[36] as int, None, None)
    ensures Flag(data[32], ATTESTED) <==> HasCredential(data)
    ensures Flag(data[32], EXTENSIONS) <==> data[32] >= 128
    ensures Reserved(data[32]) <==> data[32] / 2 % 2 == 1 || data[32] / 32 % 2 == 1
  {}

  lemma CredentialLayout<K>(dec: Decoders<K>, data: bytes)
    requires Prefix(dec) && |data| >= 37
    ensures var r := ParseCredential(dec, data[37..]);
            && (r == Failure(MissingAaguid) <==> |data| < 53)
            && (r == Failure(MissingIdLength) <==> 53 <= |data| < 55)
            && (r == Failure(TruncatedId) <==> 55 <= |data| < KeyAt(data))
            && (r == Failure(MissingKey) <==> |data| >= 55 && |data| == KeyAt(data))
            && (r == Failure(InvalidKey) <==> |data| >= 55 && |data| > KeyAt(data) && dec.key(data[KeyAt(data)..]) == None)
            && (r.Success? ==>
                  && |data| >= 55 && |data| > KeyAt(data) && dec.key(data[KeyAt(data)..]).Some?
                  && var d := dec.key(data[KeyAt(data)..]).value;
                     && KeyAt(data) + d.read <= |data|
                     && r.value == (Credential(data[37..53], data[55..KeyAt(data)], d.value, data[KeyAt(data)..KeyAt(data) + d.read]),
                                    KeyAt(data) + d.read - 37))
            && (r.Failure? ==> r.error in {MissingAaguid, MissingIdLength, TruncatedId, MissingKey, InvalidKey})
  {
    var s := data[37..];
    if |data| >= 55 {
      assert 18 + Uint16(s, 16) + 37 == KeyAt(data);
      if |data| > KeyAt(data) {
        Beyond(data, 37, KeyAt(data) - 37);
        assert DelimitsItself(dec.key, data[KeyAt(data)..]);
        var key := dec.key(data[KeyAt(data)..]);
        if key.Some? {
          Within(data, 37, 0, 16);
          Within(data, 37, 18, KeyAt(data) - 37);
          Within(data, 37, KeyAt(data) - 37, KeyAt(data) - 37 + key.value.read);
        }
      }
    }
  }

  /** What ends up where: every field of an accepted input at its offset, and nothing behind the last. */
  lemma AcceptedLayout<K>(dec: Decoders<K>, data: bytes)
    requires Prefix(dec) && Parse(dec, data).Success?
    ensures var a := Parse(dec, data).value;
            && |data| >= 37 && a.rpIdHash == data[..32] && a.flags == data[32]
            && a.signCount == data[33] as int * 16777216 + data[34] as int * 65536 + data[35] as int * 256 + data[36] as int
            && data[32] / 2 % 2 == 0 && data[32] / 32 % 2 == 0
            && (a.credential.Some? <==> data[32] / 64 % 2 == 1)
            && (a.extensions.Some? <==> data[32] >= 128)
            && (a.credential.Some? ==>
                  && |data| >= 55 && |data| > KeyAt(data) && dec.key(data[KeyAt(data)..]).Some?
                  && var d := dec.key(data[KeyAt(data)..]).value;
                     && KeyAt(data) + d.read <= |data|
                     && a.credential.value ==
                        Credential(data[37..53], data[55..KeyAt(data)], d.value, data[KeyAt(data)..KeyAt(data) + d.read]))
            && ExtensionsAt(dec, data) <= |data|
            && (if a.extensions.Some? then a.extensions.value == data[ExtensionsAt(dec, data)..] else |data| == ExtensionsAt(dec, data))
  {
    HeaderLayout<K>(data);
    CredentialLayout(dec, data);
    if HasCredential(data) {
      Beyond(data, 37, ExtensionsAt(dec, data) - 37);
    }
  }

  lemma RejectedBody<K>(dec: Decoders<K>, header: AuthenticatorData<K>, rest: bytes)
    requires Prefix(dec)
    ensures var r := ParseBody(dec, header, rest);
            && (r.Failure? ==> r.error in {MissingExtensions, InvalidExtensions, ExtensionsNotMap, TrailingBytes})
            && (r == Failure(MissingExtensions) <==> Flag(header.flags, EXTENSIONS) && |rest| == 0)
            && (r == Failure(InvalidExtensions) <==> Flag(header.flags, EXTENSIONS) && |rest| > 0 && dec.extensions(rest) == None)
            && (r == Failure(ExtensionsNotMap) <==>
                  Flag(header.flags, EXTENSIONS) && |rest| > 0 && dec.extensions(rest).Some? && !dec.extensions(rest).value.value)
            && (r == Failure(TrailingBytes) <==>
                  |rest| > 0
                  && (Flag(header.flags, EXTENSIONS) ==>
                        dec.extensions(rest).Some? && dec.extensions(rest).value.value && dec.extensions(rest).value.read < |rest|))
  {
    assert DelimitsItself(dec.extensions, rest);
  }

  /** What each rejection says: the first thing wrong, in the order of the bytes. */
  lemma RejectedExactly<K>(dec: Decoders<K>, data: bytes)
    requires Prefix(dec)
    ensures var r := Parse(dec, data);
            && (r == Failure(TooShort) <==> |data| < 37)
            && (r == Failure(ReservedFlags) <==> |data| >= 37 && (data[32] / 2 % 2 == 1 || data[32] / 32 % 2 == 1))
            && (r == Failure(MissingAaguid) ==> |data| < 53) && (r == Failure(MissingIdLength) ==> 53 <= |data| < 55)
            && (r == Failure(TruncatedId) ==> 55 <= |data| < KeyAt(data))
            && (r == Failure(MissingKey) ==> 55 <= |data| == KeyAt(data))
            && (r == Failure(InvalidKey) ==> |data| >= 55 && |data| > KeyAt(data) && dec.key(data[KeyAt(data)..]) == None)
            && (r.Failure? && r.error in {MissingAaguid, MissingIdLength, TruncatedId, MissingKey, InvalidKey} ==> HasCredential(data))
            && (r.Failure? && r.error in {MissingExtensions, InvalidExtensions, ExtensionsNotMap, TrailingBytes} ==>
                  && |data| >= 37
                  && (HasCredential(data) ==> |data| >= 55 && |data| > KeyAt(data) && dec.key(data[KeyAt(data)..]).Some?)
                  && ExtensionsAt(dec, data) <= |data|
                  && var rest := data[ExtensionsAt(dec, data)..];
                     match r.error
                     case MissingExtensions => data[32] >= 128 && |rest| == 0
                     case InvalidExtensions => data[32] >= 128 && |rest| > 0 && dec.extensions(rest) == None
                     case ExtensionsNotMap =>
                       data[32] >= 128 && |rest| > 0 && dec.extensions(rest).Some? && !dec.extensions(rest).value.value
                     case TrailingBytes =>
                       |rest| > 0
                       && (data[32] >= 128 ==>
                             var d := dec.extensions(rest); d.Some? && d.value.value && d.value.read < |rest|)
                     case _ => true)
  {
    if |data| >= 37 {
      HeaderLayout<K>(data);
      CredentialLayout(dec, data);
      if Parse(dec, data).Failure? && !Reserved(data[32]) && (HasCredential(data) ==> ParseCredential(dec, data[37..]).Success?) {
        var rest := data[ExtensionsAt(dec, data)..];
        if HasCredential(data) {
          Beyond(data, 37, ExtensionsAt(dec, data) - 37);
          RejectedBody(dec, Header<K>(data).(credential := Some(ParseCredential(dec, data[37..]).value.0)), rest);
        } else {
          RejectedBody(dec, Header<K>(data), rest);
        }
      }
    }
  }

  lemma Within(data: bytes, start: nat, a: nat, b: nat)
    requires start + a <= start + b <= |data|
    ensures data[start..][a..b] == data[start + a..start + b]
  {
    var inner, outer := data[start..][a..b], data[start + a..start + b];
    assert |inner| == |outer| && forall k :: 0 <= k < |inner| ==> inner[k] == outer[k];
  }

  lemma Beyond(data: bytes, start: nat, a: nat)
    requires start + a <= |data|
    ensures data[start..][a..] == data[start + a..]
  {
    var inner, outer := data[start..][a..], data[start + a..];
    assert |inner| == |outer| && forall k :: 0 <= k < |inner| ==> inner[k] == outer[k];
  }

  /** The attested credential data of parseAuthData: the credential and the cursor behind it. */
  method ParseAttested<K>(dec: Decoders<K>, data: bytes, start: nat) returns (r: Result<(Credential<K>, nat), ParseError>)
    requires Prefix(dec) && start <= |data|
    ensures r == ParseCredential(dec, data[start..])
    ensures r.Success? ==> start + r.value.1 <= |data|
  {
    var offset := start;
    if |data| < offset + 16 {
      return Failure(MissingAaguid);
    }
    var aaguid := data[offset..offset + 16];
    Within(data, start, 0, 16);
    offset := offset + 16;
    if |data| < offset + 2 {
      return Failure(MissingIdLength);
    }
    var length := Uint16(data, offset);
    offset := offset + 2;
    if |data| < offset + length {
      return Failure(TruncatedId);
    }
    var id := data[offset..offset + length];
    Within(data, start, 18, 18 + length);
    offset := offset + length;
    if |data| == offset {
      return Failure(MissingKey);
    }
    Beyond(data, start, 18 + length);
    var key := dec.key(data[offset..]);
    if key.None? {
      return Failure(InvalidKey);
    }
    assert DelimitsItself(dec.key, data[offset..]);
    var read := key.value.read;
    Within(data, start, 18 + length, 18 + length + read);
    return Success((Credential(aaguid, id, key.value.value, data[offset..offset + read]), offset + read - start));
  }

  /** parseAuthData, with its cursor. */
  method ParseAuthData<K>(dec: Decoders<K>, data: bytes) returns (r: Result<AuthenticatorData<K>, ParseError>)
    requires Prefix(dec)
    ensures r == Parse(dec, data)
  {
    if |data| < 37 {
      return Failure(TooShort);
    }
    if Reserved(data[32]) {
      return Failure(ReservedFlags);
    }
    var d: AuthenticatorData<K> := Header(data);
    var offset := 37;
    if Flag(d.flags, ATTESTED) {
      var attested := ParseAttested(dec, data, offset);
      if attested.Failure? {
        return Failure(attested.error);
      }
      Beyond(data, offset, attested.value.1);
      d := d.(credential := Some(attested.value.0));
      offset := offset + attested.value.1;
    }
    if Flag(d.flags, EXTENSIONS) {
      if |data| == offset {
        return Failure(MissingExtensions);
      }
      var extensions := data[offset..];
      var decoded := dec.extensions(extensions);
      if decoded.None? {
        return Failure(InvalidExtensions);
      }
      if !decoded.value.value {
        return Failure(ExtensionsNotMap);
      }
      if decoded.value.read != |extensions| {
        return Failure(TrailingBytes);
      }
      d := d.(extensions := Some(extensions));
      offset := |data|;
    }
    if offset != |data| {
      return Failure(TrailingBytes);
    }
    return Success(d);
  }
}
