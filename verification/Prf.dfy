/** PRF input selection for a GetAssertion (authenticator/prf.go:122-258), section 10.1.4 of WebAuthn Level 3. */
module Prf {
  import opened Bytes
  import opened CredentialIds

  /** An absent buffer is None; a present one may be empty. */
  datatype Values = Values(first: Option<bytes>, second: Option<bytes>)

  datatype Inputs = Inputs(eval: Values, evalByCredential: map<string, Values>)

  datatype InputError =
    | SecondWithoutFirst | AllowListRequired | InvalidCredentialId | CredentialNotAllowed | FirstRequired | DifferentInputs

  predicate BadEval(v: Values) {
    v.first.None? && v.second.Some?
  }

  /** What is wrong with one entry of evalByCredential, checked in this order. */
  function EntryError(b64: Base64, inputs: Inputs, allowed: set<string>, key: string): Option<InputError>
    requires key in inputs.evalByCredential
  {
    if !WellFormed(b64, key) then Some(InvalidCredentialId)
    else if key !in allowed then Some(CredentialNotAllowed)
    else if inputs.evalByCredential[key].first.None? then Some(FirstRequired)
    else None
  }

  predicate GoodEntry(b64: Base64, inputs: Inputs, allowed: set<string>, key: string) {
    key in inputs.evalByCredential && EntryError(b64, inputs, allowed, key).None?
  }

  ghost predicate ValidInputs(b64: Base64, inputs: Inputs, allowList: seq<bytes>) {
    && !BadEval(inputs.eval)
    && (inputs.evalByCredential != map[] ==>
          && allowList != []
          && forall key :: key in inputs.evalByCredential ==> GoodEntry(b64, inputs, EncodedIds(b64, allowList), key))
  }

  /** The error is one the inputs do have; with several bad entries it is any one of theirs. */
  ghost predicate Justified(b64: Base64, inputs: Inputs, allowList: seq<bytes>, error: InputError) {
    if BadEval(inputs.eval) then error == SecondWithoutFirst
    else if allowList == [] then error == AllowListRequired && inputs.evalByCredential != map[]
    else
      exists key :: key in inputs.evalByCredential && EntryError(b64, inputs, EncodedIds(b64, allowList), key) == Some(error)
  }

  /** The inputs a credential would be evaluated with, if any. */
  function SelectFor(b64: Base64, inputs: Inputs, id: bytes): Option<Values> {
    if b64.encode(id) in inputs.evalByCredential then Some(inputs.evalByCredential[b64.encode(id)])
    else if inputs.eval.first.Some? then Some(inputs.eval)
    else None
  }

  /** Comparing presence and then contents tells absent from present and empty. */
  predicate EqualOptionalValues(a: Option<Values>, b: Option<Values>)
    ensures EqualOptionalValues(a, b) <==> a == b
  {
    if a.None? || b.None? then a.None? && b.None?
    else
      && a.value.first.None? == b.value.first.None? && Contents(a.value.first) == Contents(b.value.first)
      && a.value.second.None? == b.value.second.None? && Contents(a.value.second) == Contents(b.value.second)
  }

  ghost predicate AllSelect(b64: Base64, inputs: Inputs, allowList: seq<bytes>, v: Option<Values>) {
    forall id :: id in allowList ==> SelectFor(b64, inputs, id) == v
  }

  /** validateGetPRFInputs; the map may be visited in any order. */
  method ValidateGetInputs(b64: Base64, inputs: Inputs, allowList: seq<bytes>) returns (error: Option<InputError>)
    ensures error == None <==> ValidInputs(b64, inputs, allowList)
    ensures error.Some? ==> Justified(b64, inputs, allowList, error.value)
  {
    if BadEval(inputs.eval) {
      return Some(SecondWithoutFirst);
    }
    if |inputs.evalByCredential| == 0 {
      return None;
    }
    if |allowList| == 0 {
      return Some(AllowListRequired);
    }
    var allowed := CollectIds(b64, allowList);
    var keys := inputs.evalByCredential.Keys;
    while keys != {}
      invariant keys <= inputs.evalByCredential.Keys
      invariant forall key :: key in inputs.evalByCredential && key !in keys ==> GoodEntry(b64, inputs, allowed, key)
      decreases |keys|
    {
      var key :| key in keys;
      var found := EntryError(b64, inputs, allowed, key);
      if found.Some? {
        return found;
      }
      keys := keys - {key};
    }
    return None;
  }

  /** selectCTAPGetPRFEvaluation: after validation it succeeds exactly when one choice of inputs
      serves every allowed credential, and that choice is the result. */
  method SelectEvaluation(b64: Base64, inputs: Inputs, allowList: seq<bytes>) returns (r: Result<Option<Values>, InputError>)
    ensures r.Success? <==> ValidInputs(b64, inputs, allowList)
                            && (inputs.evalByCredential == map[] || exists v :: AllSelect(b64, inputs, allowList, v))
    ensures r.Success? ==> AllSelect(b64, inputs, allowList, r.value)
    // An entry of its own goes before eval; only without either is nothing sent.
    ensures r.Success? ==> forall id :: id in allowList ==>
              var key := b64.encode(id);
              && (key in inputs.evalByCredential ==> r.value == Some(inputs.evalByCredential[key]))
              && (key !in inputs.evalByCredential && inputs.eval.first.Some? ==> r.value == Some(inputs.eval))
              && (key !in inputs.evalByCredential && inputs.eval.first.None? ==> r.value == None)
    ensures r.Success? && inputs.evalByCredential == map[] ==>
              r.value == if inputs.eval.first.Some? then Some(inputs.eval) else None
    ensures r.Failure? && !ValidInputs(b64, inputs, allowList) ==> Justified(b64, inputs, allowList, r.error)
    ensures r.Failure? && ValidInputs(b64, inputs, allowList) ==> r.error == DifferentInputs
  {
    var error := ValidateGetInputs(b64, inputs, allowList);
    if error.Some? {
      return Failure(error.value);
    }
    if |inputs.evalByCredential| == 0 {
      return Success(SelectFor(b64, inputs, []));
    }
    var reference: Option<Values> := None;
    var referenceSet := false;
    var seen: set<string> := {};
    var i := 0;
    while i < |allowList|
      invariant 0 <= i <= |allowList|
      invariant referenceSet <==> i > 0
      invariant referenceSet ==> AllSelect(b64, inputs, allowList[..i], reference)
      invariant seen == EncodedIds(b64, allowList[..i])
    {
      var id := allowList[i];
      assert allowList[..i + 1] == allowList[..i] + [id];
      EncodedAppend(b64, allowList[..i], id);
      EncodedMember(b64, allowList[..i], b64.encode(id));
      i := i + 1;
      if b64.encode(id) in seen {
        ghost var j :| 0 <= j < i - 1 && b64.encode(allowList[..i - 1][j]) == b64.encode(id);
        assert SelectFor(b64, inputs, allowList[..i - 1][j]) == reference;
        continue;
      }
      seen := seen + {b64.encode(id)};
      var effective := SelectFor(b64, inputs, id);
      if !referenceSet {
        reference, referenceSet := effective, true;
        continue;
      }
      if !EqualOptionalValues(reference, effective) {
        assert allowList[0] in allowList[..i - 1];
        forall v ensures !AllSelect(b64, inputs, allowList, v) {
          assert SelectFor(b64, inputs, allowList[0]) == reference && id in allowList;
        }
        return Failure(DifferentInputs);
      }
    }
    assert allowList[..i] == allowList;
    return Success(reference);
  }

  /** One choice serves all exactly when it is each listed credential's own entry or, without one, eval. */
  lemma ServesAllExactly(b64: Base64, inputs: Inputs, allowList: seq<bytes>, v: Option<Values>)
    ensures AllSelect(b64, inputs, allowList, v) <==>
            forall i :: 0 <= i < |allowList| ==>
              var key := b64.encode(allowList[i]);
              if key in inputs.evalByCredential then v == Some(inputs.evalByCredential[key])
              else v == (if inputs.eval.first == None then None else Some(inputs.eval))
  {
    forall i | 0 <= i < |allowList| ensures allowList[i] in allowList {}
    forall id | id in allowList ensures exists i :: 0 <= i < |allowList| && allowList[i] == id {}
  }

  /** The inputs pass exactly when eval has no second without a first, and every key encodes a listed
      ID, is not empty, and has a first. */
  lemma ValidExactly(b64: Base64, inputs: Inputs, allowList: seq<bytes>)
    requires RoundTrips(b64)
    ensures ValidInputs(b64, inputs, allowList) <==>
            && (inputs.eval.second.Some? ==> inputs.eval.first.Some?)
            && forall key :: key in inputs.evalByCredential ==>
                 && key != "" && inputs.evalByCredential[key].first.Some?
                 && exists i :: 0 <= i < |allowList| && b64.encode(allowList[i]) == key
  {
    forall key ensures key in EncodedIds(b64, allowList) <==> exists i :: 0 <= i < |allowList| && b64.encode(allowList[i]) == key {
      EncodedMember(b64, allowList, key);
    }
    forall key ensures WellFormed(b64, key) <==> key != "" && exists id :: b64.encode(id) == key {
      WellFormedExactly(b64, key);
    }
  }

  /** What each error says of the inputs. */
  lemma ErrorMeans(b64: Base64, inputs: Inputs, allowList: seq<bytes>, error: InputError)
    requires RoundTrips(b64) && Justified(b64, inputs, allowList, error)
    ensures match error
            case SecondWithoutFirst => inputs.eval.first.None? && inputs.eval.second.Some?
            case AllowListRequired => allowList == [] && inputs.evalByCredential != map[]
            case InvalidCredentialId =>
              exists key :: key in inputs.evalByCredential && (key == "" || forall id :: b64.encode(id) != key)
            case CredentialNotAllowed =>
              exists key :: key in inputs.evalByCredential && key != "" && (exists id :: b64.encode(id) == key)
                            && forall id :: id in allowList ==> b64.encode(id) != key
            case FirstRequired =>
              exists key :: key in inputs.evalByCredential && inputs.evalByCredential[key].first.None?
                            && exists id :: id in allowList && b64.encode(id) == key
            case DifferentInputs => false
  {
    if !BadEval(inputs.eval) && allowList != [] {
      var key :| key in inputs.evalByCredential && EntryError(b64, inputs, EncodedIds(b64, allowList), key) == Some(error);
      EncodedMember(b64, allowList, key);
      WellFormedExactly(b64, key);
      if id :| id in allowList && b64.encode(id) == key {
        var i :| 0 <= i < |allowList| && allowList[i] == id;
      }
    }
  }

  lemma {:induction false} EncodedAppend(b64: Base64, ids: seq<bytes>, id: bytes)
    ensures EncodedIds(b64, ids + [id]) == EncodedIds(b64, ids) + {b64.encode(id)}
  {
    if ids == [] {
      assert ids + [id] == [id] && [id][1..] == [];
    } else {
      assert (ids + [id])[1..] == ids[1..] + [id];
      EncodedAppend(b64, ids[1..], id);
    }
  }

  /** With per-credential inputs a success has inputs to send, and so has every allowed credential:
      none of them is left to fall through to an absent eval. */
  lemma EveryCredentialIsEvaluated(b64: Base64, inputs: Inputs, allowList: seq<bytes>, v: Option<Values>)
    requires ValidInputs(b64, inputs, allowList) && inputs.evalByCredential != map[]
    requires AllSelect(b64, inputs, allowList, v)
    ensures v.Some? && v.value.first.Some?
    ensures forall id :: id in allowList && b64.encode(id) !in inputs.evalByCredential ==> inputs.eval == v.value
  {
    var key :| key in inputs.evalByCredential;
    assert GoodEntry(b64, inputs, EncodedIds(b64, allowList), key);
    EncodedMember(b64, allowList, key);
    var i :| 0 <= i < |allowList| && b64.encode(allowList[i]) == key;
    assert SelectFor(b64, inputs, allowList[i]) == v;
  }

  /** Listing a credential twice, or in another order, changes neither validity nor the choice. */
  lemma OnlyTheListedSetMatters(b64: Base64, inputs: Inputs, a: seq<bytes>, b: seq<bytes>)
    requires forall id :: id in a <==> id in b
    ensures ValidInputs(b64, inputs, a) <==> ValidInputs(b64, inputs, b)
    ensures forall v :: AllSelect(b64, inputs, a, v) <==> AllSelect(b64, inputs, b, v)
  {
    SameEncoded(b64, a, b);
    SameEncoded(b64, b, a);
    assert EncodedIds(b64, a) == EncodedIds(b64, b);
    assert a != [] ==> a[0] in b;
    assert b != [] ==> b[0] in a;
  }

  lemma SameEncoded(b64: Base64, a: seq<bytes>, b: seq<bytes>)
    requires forall id :: id in a ==> id in b
    ensures EncodedIds(b64, a) <= EncodedIds(b64, b)
  {
    forall key | key in EncodedIds(b64, a) ensures key in EncodedIds(b64, b) {
      EncodedMember(b64, a, key);
      var i :| 0 <= i < |a| && b64.encode(a[i]) == key;
      assert a[i] in b;
      var j :| 0 <= j < |b| && b[j] == a[i];
      EncodedMember(b64, b, key);
    }
  }
}
