/** previewSign inputs of a GetAssertion (authenticator/preview_sign.go:59-145). */
module PreviewSign {
  import opened Bytes
  import opened CredentialIds

  datatype SignInputs = SignInputs(keyHandle: Option<bytes>, toBeSigned: Option<bytes>, additionalArguments: Option<bytes>)

  /** `cose` is whether the additional arguments are a COSE_Sign_Args map. */
  datatype Device = Device(previewSign: bool, cose: bytes -> bool)

  datatype Inputs = Inputs(generateKey: bool, signByCredential: Option<map<string, SignInputs>>)

  datatype InputError =
    | GenerateKeyNotSupported | SignByCredentialRequired | ExtensionNotSupported | AllowListRequired | CountMismatch
    | InvalidCredentialId | CredentialNotAllowed | KeyHandleRequired | ToBeSignedRequired | InvalidArguments | DifferentInputs

  function ValidateSignInputs(device: Device, s: SignInputs): Option<InputError> {
    if s.keyHandle.None? then Some(KeyHandleRequired)
    else if s.toBeSigned.None? then Some(ToBeSignedRequired)
    else if s.additionalArguments.Some?
            && (s.additionalArguments.value == [] || !device.cose(s.additionalArguments.value)) then Some(InvalidArguments)
    else None
  }

  /** bytes.Equal on the three members: an absent one looks empty. */
  predicate EqualSignInputs(a: SignInputs, b: SignInputs) {
    && Contents(a.keyHandle) == Contents(b.keyHandle)
    && Contents(a.toBeSigned) == Contents(b.toBeSigned)
    && Contents(a.additionalArguments) == Contents(b.additionalArguments)
  }

  /** On inputs that passed validation the comparison misses nothing, not even an absent member. */
  lemma EqualMeansSame(device: Device, a: SignInputs, b: SignInputs)
    requires ValidateSignInputs(device, a).None? && ValidateSignInputs(device, b).None?
    ensures EqualSignInputs(a, b) <==> a == b
  {
    assert a.additionalArguments.Some? ==> a.additionalArguments.value != [];
    assert b.additionalArguments.Some? ==> b.additionalArguments.value != [];
  }

  ghost predicate AllHold(b64: Base64, signs: map<string, SignInputs>, allowList: seq<bytes>, s: SignInputs) {
    forall i :: 0 <= i < |allowList| ==> b64.encode(allowList[i]) in signs && signs[b64.encode(allowList[i])] == s
  }

  /** The keys are the encoded IDs of the allow list, one for one. */
  ghost predicate OneForOne(b64: Base64, signs: map<string, SignInputs>, allowList: seq<bytes>) {
    NoDuplicates(allowList) && signs.Keys == EncodedIds(b64, allowList)
  }

  ghost predicate Accepted(b64: Base64, device: Device, allowList: seq<bytes>, inputs: Inputs, s: SignInputs) {
    && !inputs.generateKey && inputs.signByCredential.Some? && device.previewSign && allowList != []
    && OneForOne(b64, inputs.signByCredential.value, allowList)
    && (forall key :: key in inputs.signByCredential.value ==> WellFormed(b64, key))
    && AllHold(b64, inputs.signByCredential.value, allowList, s)
    && ValidateSignInputs(device, s).None?
  }

  /** What is wrong with one key, if anything. */
  function KeyDefect(b64: Base64, allowed: set<string>, key: string): Option<InputError> {
    if !WellFormed(b64, key) then Some(InvalidCredentialId)
    else if key !in allowed then Some(CredentialNotAllowed)
    else None
  }

  /** What is wrong with the i-th credential's input, compared with the first one's. */
  function CandidateDefect(b64: Base64, device: Device, signs: map<string, SignInputs>, allowList: seq<bytes>, i: nat): Option<InputError>
    requires i < |allowList| && signs.Keys == EncodedIds(b64, allowList)
  {
    EncodedAt(b64, allowList, 0);
    EncodedAt(b64, allowList, i);
    var candidate := signs[b64.encode(allowList[i])];
    var error := ValidateSignInputs(device, candidate);
    if error.Some? then error
    else if candidate != signs[b64.encode(allowList[0])] then Some(DifferentInputs)
    else None
  }

  /** The i-th credential is the first with anything wrong, and the error is what is wrong with it. */
  ghost predicate FirstDefect(b64: Base64, device: Device, signs: map<string, SignInputs>, allowList: seq<bytes>, i: nat, error: InputError)
    requires signs.Keys == EncodedIds(b64, allowList)
  {
    && i < |allowList| && CandidateDefect(b64, device, signs, allowList, i) == Some(error)
    && forall j :: 0 <= j < i ==> CandidateDefect(b64, device, signs, allowList, j) == None
  }

  /** The defect of the request that an error reports; with several bad keys it is any one of theirs. */
  ghost predicate Justified(b64: Base64, device: Device, allowList: seq<bytes>, inputs: Inputs, error: InputError) {
    if inputs.generateKey then error == GenerateKeyNotSupported
    else if inputs.signByCredential.None? then error == SignByCredentialRequired
    else if !device.previewSign then error == ExtensionNotSupported
    else if allowList == [] then error == AllowListRequired
    else
      var signs := inputs.signByCredential.value;
      if |signs| != |allowList| then error == CountMismatch
      else if signs.Keys == EncodedIds(b64, allowList) && forall key :: key in signs ==> WellFormed(b64, key) then
        exists i: nat :: FirstDefect(b64, device, signs, allowList, i, error)
      else
        exists key :: key in signs && KeyDefect(b64, EncodedIds(b64, allowList), key) == Some(error)
  }

  /** validateGetPreviewSign: what is returned is the one input every allowed credential has. */
  method ValidateGet(b64: Base64, device: Device, allowList: seq<bytes>, inputs: Option<Inputs>)
    returns (r: Result<Option<SignInputs>, InputError>)
    requires RoundTrips(b64)
    ensures r == Success(None) <==> inputs.None?
    ensures inputs.Some? ==> forall s :: Accepted(b64, device, allowList, inputs.value, s) <==> r == Success(Some(s))
    ensures r.Failure? ==> inputs.Some?
    ensures r.Failure? ==> Justified(b64, device, allowList, inputs.value, r.error)
    ensures r == Failure(CountMismatch) || r == Failure(DifferentInputs) ==> inputs.value.signByCredential.Some?
    ensures r == Failure(CountMismatch) ==> !OneForOne(b64, inputs.value.signByCredential.value, allowList)
    ensures r == Failure(DifferentInputs) ==>
              OneForOne(b64, inputs.value.signByCredential.value, allowList)
              && forall s :: !AllHold(b64, inputs.value.signByCredential.value, allowList, s)
  {
    if inputs.None? {
      return Success(None);
    }
    if inputs.value.generateKey {
      return Failure(GenerateKeyNotSupported);
    }
    if inputs.value.signByCredential.None? {
      return Failure(SignByCredentialRequired);
    }
    if !device.previewSign {
      return Failure(ExtensionNotSupported);
    }
    if |allowList| == 0 {
      return Failure(AllowListRequired);
    }
    var signs := inputs.value.signByCredential.value;
    if |signs| != |allowList| {
      CountsAgree(b64, signs, allowList);
      return Failure(CountMismatch);
    }
    var error := CheckKeys(b64, signs, allowList);
    if error.Some? {
      return Failure(error.value);
    }
    assert |signs.Keys| == |signs|;
    KeysMatchAllowList(b64, allowList, signs.Keys);
    r := CommonInputs(b64, device, signs, allowList);
  }

  lemma CountsAgree(b64: Base64, signs: map<string, SignInputs>, allowList: seq<bytes>)
    requires RoundTrips(b64)
    ensures OneForOne(b64, signs, allowList) ==> |signs| == |allowList|
  {
    if OneForOne(b64, signs, allowList) {
      KeysMatchAllowList(b64, allowList, signs.Keys);
      assert |signs.Keys| == |signs|;
    }
  }

  /** Every key is well formed and listed. */
  method CheckKeys(b64: Base64, signs: map<string, SignInputs>, allowList: seq<bytes>) returns (error: Option<InputError>)
    ensures error.None? <==> signs.Keys <= EncodedIds(b64, allowList) && forall key :: key in signs ==> WellFormed(b64, key)
    ensures error.Some? ==> exists key :: key in signs && KeyDefect(b64, EncodedIds(b64, allowList), key) == error
  {
    var allowed := CollectIds(b64, allowList);
    var keys := signs.Keys;
    while keys != {}
      invariant keys <= signs.Keys
      invariant forall key :: key in signs && key !in keys ==> WellFormed(b64, key) && key in allowed
      decreases |keys|
    {
      var key :| key in keys;
      assert key in signs;
      if !WellFormed(b64, key) {
        return Some(InvalidCredentialId);
      }
      if key !in allowed {
        return Some(CredentialNotAllowed);
      }
      keys := keys - {key};
    }
    return None;
  }

  /** The candidates one by one against the first; no lookup misses. */
  method CommonInputs(b64: Base64, device: Device, signs: map<string, SignInputs>, allowList: seq<bytes>)
    returns (r: Result<Option<SignInputs>, InputError>)
    requires allowList != [] && signs.Keys == EncodedIds(b64, allowList)
    ensures forall s :: AllHold(b64, signs, allowList, s) && ValidateSignInputs(device, s).None? <==> r == Success(Some(s))
    ensures r != Success(None)
    ensures r.Failure? ==> exists i: nat :: FirstDefect(b64, device, signs, allowList, i, r.error)
    ensures r == Failure(DifferentInputs) ==> forall s :: !AllHold(b64, signs, allowList, s)
  {
    EncodedAt(b64, allowList, 0);
    ghost var first := signs[b64.encode(allowList[0])];
    var common: Option<SignInputs> := None;
    var i := 0;
    while i < |allowList|
      invariant 0 <= i <= |allowList|
      invariant i == 0 <==> common.None?
      invariant i > 0 ==> common == Some(first) && ValidateSignInputs(device, first).None?
      invariant AllHold(b64, signs, allowList[..i], first)
      invariant forall j :: 0 <= j < i ==> CandidateDefect(b64, device, signs, allowList, j) == None
    {
      EncodedAt(b64, allowList, i);
      var candidate := signs[b64.encode(allowList[i])];
      var error := ValidateSignInputs(device, candidate);
      if error.Some? {
        forall s | AllHold(b64, signs, allowList, s) ensures ValidateSignInputs(device, s).Some? {
          assert s == candidate;
        }
        assert FirstDefect(b64, device, signs, allowList, i, error.value);
        return Failure(error.value);
      }
      if common.None? {
        common := Some(candidate);
      } else {
        EqualMeansSame(device, common.value, candidate);
        if !EqualSignInputs(common.value, candidate) {
          forall s ensures !AllHold(b64, signs, allowList, s) {
            assert s != candidate || s != first;
          }
          assert FirstDefect(b64, device, signs, allowList, i, DifferentInputs);
          return Failure(DifferentInputs);
        }
      }
      assert allowList[..i + 1] == allowList[..i] + [allowList[i]];
      i := i + 1;
    }
    assert allowList[..i] == allowList;
    forall s | AllHold(b64, signs, allowList, s) ensures s == first {
      assert b64.encode(allowList[0]) in signs && signs[b64.encode(allowList[0])] == s;
    }
    return Success(common);
  }

  /** The one accepted form of a request, member by member. */
  lemma AcceptedExactly(b64: Base64, device: Device, allowList: seq<bytes>, inputs: Inputs, s: SignInputs)
    requires RoundTrips(b64)
    ensures Accepted(b64, device, allowList, inputs, s) <==>
            && device.previewSign && !inputs.generateKey && inputs.signByCredential.Some? && |allowList| > 0
            && (forall i, j :: 0 <= i < j < |allowList| ==> allowList[i] != allowList[j])
            && (forall key :: key in inputs.signByCredential.value ==>
                  key != "" && exists i :: 0 <= i < |allowList| && b64.encode(allowList[i]) == key)
            && (forall i :: 0 <= i < |allowList| ==>
                  var key := b64.encode(allowList[i]);
                  key in inputs.signByCredential.value && inputs.signByCredential.value[key] == s)
            && s.keyHandle.Some? && s.toBeSigned.Some?
            && (s.additionalArguments.Some? ==> |s.additionalArguments.value| > 0 && device.cose(s.additionalArguments.value))
  {
    forall key ensures key in EncodedIds(b64, allowList) <==> exists i :: 0 <= i < |allowList| && b64.encode(allowList[i]) == key {
      EncodedMember(b64, allowList, key);
    }
    forall key ensures WellFormed(b64, key) <==> key != "" && exists id :: b64.encode(id) == key {
      WellFormedExactly(b64, key);
    }
  }

  /** What an error says of one input. */
  lemma SignErrorMeans(device: Device, s: SignInputs)
    ensures var error := ValidateSignInputs(device, s);
            && (error == Some(KeyHandleRequired) <==> s.keyHandle == None)
            && (error == Some(ToBeSignedRequired) <==> s.keyHandle != None && s.toBeSigned == None)
            && (error == Some(InvalidArguments) <==>
                  s.keyHandle != None && s.toBeSigned != None
                  && exists a :: s.additionalArguments == Some(a) && (|a| == 0 || !device.cose(a)))
            && (error.Some? ==> error.value in {KeyHandleRequired, ToBeSignedRequired, InvalidArguments})
  {
    if s.additionalArguments.Some? {
      var a := s.additionalArguments.value;
      assert s.additionalArguments == Some(a);
    }
  }

  ghost predicate KeyErrorMeans(b64: Base64, allowList: seq<bytes>, key: string, error: InputError) {
    || (error == InvalidCredentialId && (key == "" || forall id :: b64.encode(id) != key))
    || (error == CredentialNotAllowed && key != "" && (exists id :: b64.encode(id) == key)
        && forall i :: 0 <= i < |allowList| ==> b64.encode(allowList[i]) != key)
  }

  lemma KeyDefectMeans(b64: Base64, allowList: seq<bytes>, key: string, error: InputError)
    requires RoundTrips(b64)
    ensures KeyDefect(b64, EncodedIds(b64, allowList), key) == Some(error) <==> KeyErrorMeans(b64, allowList, key, error)
  {
    WellFormedExactly(b64, key);
    EncodedMember(b64, allowList, key);
  }

  /** An error about the keys names what is wrong with one of them; any other error is the first
      credential's whose input is defective or differs from the first one's. */
  lemma ErrorMeans(b64: Base64, device: Device, allowList: seq<bytes>, inputs: Inputs, error: InputError)
    requires RoundTrips(b64) && Justified(b64, device, allowList, inputs, error)
    ensures error == GenerateKeyNotSupported <==> inputs.generateKey
    ensures error == SignByCredentialRequired <==> !inputs.generateKey && inputs.signByCredential == None
    ensures !inputs.generateKey && inputs.signByCredential.Some? ==>
              && (error == ExtensionNotSupported <==> !device.previewSign)
              && (error == AllowListRequired <==> device.previewSign && allowList == [])
              && (error == CountMismatch <==> device.previewSign && allowList != [] && |inputs.signByCredential.value| != |allowList|)
    ensures error in {InvalidCredentialId, CredentialNotAllowed} ==>
              exists key :: key in inputs.signByCredential.value
                            && KeyErrorMeans(b64, allowList, key, error)
  {
    if !inputs.generateKey && inputs.signByCredential.Some? && device.previewSign && allowList != []
       && |inputs.signByCredential.value| == |allowList| {
      var signs := inputs.signByCredential.value;
      if signs.Keys == EncodedIds(b64, allowList) && forall key :: key in signs ==> WellFormed(b64, key) {
        var i: nat :| FirstDefect(b64, device, signs, allowList, i, error);
        FirstDefectMeans(b64, device, signs, allowList, i, error);
      } else {
        var key :| key in signs && KeyDefect(b64, EncodedIds(b64, allowList), key) == Some(error);
        KeyDefectMeans(b64, allowList, key, error);
      }
    }
  }

  lemma FirstDefectMeans(b64: Base64, device: Device, signs: map<string, SignInputs>, allowList: seq<bytes>, i: nat, error: InputError)
    requires signs.Keys == EncodedIds(b64, allowList) && FirstDefect(b64, device, signs, allowList, i, error)
    ensures error in {KeyHandleRequired, ToBeSignedRequired, InvalidArguments, DifferentInputs}
    ensures b64.encode(allowList[i]) in signs && b64.encode(allowList[0]) in signs
    ensures error == DifferentInputs ==> signs[b64.encode(allowList[i])] != signs[b64.encode(allowList[0])]
    ensures error != DifferentInputs ==> ValidateSignInputs(device, signs[b64.encode(allowList[i])]) == Some(error)
    ensures forall j :: 0 <= j < i ==>
              b64.encode(allowList[j]) in signs && signs[b64.encode(allowList[j])] == signs[b64.encode(allowList[0])]
              && ValidateSignInputs(device, signs[b64.encode(allowList[j])]) == None
  {
    EncodedAt(b64, allowList, i);
    EncodedAt(b64, allowList, 0);
    SignErrorMeans(device, signs[b64.encode(allowList[i])]);
    forall j | 0 <= j < i
      ensures b64.encode(allowList[j]) in signs && signs[b64.encode(allowList[j])] == signs[b64.encode(allowList[0])]
              && ValidateSignInputs(device, signs[b64.encode(allowList[j])]) == None
    {
      EncodedAt(b64, allowList, j);
      assert CandidateDefect(b64, device, signs, allowList, j) == None;
    }
  }

  /** Acceptance is a bijection between allow list and entries, each holding the returned input. */
  lemma AcceptedIsBijection(b64: Base64, device: Device, allowList: seq<bytes>, inputs: Inputs, s: SignInputs)
    requires RoundTrips(b64) && Accepted(b64, device, allowList, inputs, s)
    ensures |inputs.signByCredential.value| == |allowList|
    ensures forall i, j :: 0 <= i < j < |allowList| ==> b64.encode(allowList[i]) != b64.encode(allowList[j])
    ensures forall key :: key in inputs.signByCredential.value ==>
              inputs.signByCredential.value[key] == s && exists i :: 0 <= i < |allowList| && b64.encode(allowList[i]) == key
  {
    var signs := inputs.signByCredential.value;
    CountsAgree(b64, signs, allowList);
    forall i, j | 0 <= i < j < |allowList| ensures b64.encode(allowList[i]) != b64.encode(allowList[j]) {
      if b64.encode(allowList[i]) == b64.encode(allowList[j]) {
        Distinguished(b64, allowList[i], allowList[j]);
      }
    }
    forall key | key in signs ensures signs[key] == s && exists i :: 0 <= i < |allowList| && b64.encode(allowList[i]) == key {
      EncodedMember(b64, allowList, key);
    }
  }
}
