/** Credential IDs as base64url map keys, shared by the PRF and previewSign planners. */
module CredentialIds {
  import opened Bytes

  /** The unpadded base64url codec: EncodeToString, and the strict DecodeString. */
  datatype Base64 = Base64(encode: bytes -> string, decode: string -> Option<bytes>)

  ghost predicate RoundTrips(b64: Base64) {
    forall id: bytes :: b64.decode(b64.encode(id)) == Some(id)
  }

  /** What slices.Equal and bytes.Equal compare: an absent buffer looks empty. */
  function Contents(o: Option<bytes>): bytes {
    if o.Some? then o.value else []
  }

  predicate WellFormed(b64: Base64, key: string) {
    key != "" && b64.decode(key).Some? && b64.encode(b64.decode(key).value) == key
  }

  /** The keys let through are the encodings of IDs: no padding, no stray bits, not the empty key. */
  lemma WellFormedExactly(b64: Base64, key: string)
    requires RoundTrips(b64)
    ensures WellFormed(b64, key) <==> key != "" && exists id :: b64.encode(id) == key
  {
    if id :| b64.encode(id) == key {
      assert b64.decode(b64.encode(id)) == Some(id);
    }
  }

  function EncodedIds(b64: Base64, allowList: seq<bytes>): set<string> {
    if allowList == [] then {} else {b64.encode(allowList[0])} + EncodedIds(b64, allowList[1..])
  }

  /** The loop that fills allowedCredentialIDs in both planners. */
  method CollectIds(b64: Base64, allowList: seq<bytes>) returns (allowed: set<string>)
    ensures allowed == EncodedIds(b64, allowList)
  {
    allowed := {};
    var i := 0;
    while i < |allowList|
      invariant 0 <= i <= |allowList|
      invariant EncodedIds(b64, allowList) == allowed + EncodedIds(b64, allowList[i..])
    {
      assert allowList[i..][1..] == allowList[i + 1..];
      allowed := allowed + {b64.encode(allowList[i])};
      i := i + 1;
    }
  }

  ghost predicate NoDuplicates(allowList: seq<bytes>) {
    forall i, j :: 0 <= i < j < |allowList| ==> allowList[i] != allowList[j]
  }

  lemma {:induction false} EncodedMember(b64: Base64, allowList: seq<bytes>, key: string)
    ensures key in EncodedIds(b64, allowList) <==> exists i :: 0 <= i < |allowList| && b64.encode(allowList[i]) == key
  {
    if allowList != [] {
      var tail := allowList[1..];
      EncodedMember(b64, tail, key);
      if i :| 0 <= i < |tail| && b64.encode(tail[i]) == key {
        assert allowList[i + 1] == tail[i];
      }
      if i :| 0 <= i < |allowList| && b64.encode(allowList[i]) == key {
        assert i > 0 ==> tail[i - 1] == allowList[i];
      }
    }
  }

  lemma EncodedAt(b64: Base64, allowList: seq<bytes>, i: nat)
    requires i < |allowList|
    ensures b64.encode(allowList[i]) in EncodedIds(b64, allowList)
  {
    EncodedMember(b64, allowList, b64.encode(allowList[i]));
  }

  lemma Distinguished(b64: Base64, x: bytes, y: bytes)
    requires RoundTrips(b64) && b64.encode(x) == b64.encode(y)
    ensures x == y
  {
    assert b64.decode(b64.encode(x)) == Some(x) && b64.decode(b64.encode(y)) == Some(y);
  }

  /** There are as many encoded IDs as entries exactly when no ID is listed twice. */
  lemma {:induction false} CountDistinct(b64: Base64, allowList: seq<bytes>)
    requires RoundTrips(b64)
    ensures |EncodedIds(b64, allowList)| <= |allowList|
    ensures |EncodedIds(b64, allowList)| == |allowList| <==> NoDuplicates(allowList)
  {
    if allowList != [] {
      var head, tail := b64.encode(allowList[0]), allowList[1..];
      CountDistinct(b64, tail);
      EncodedMember(b64, tail, head);
      assert NoDuplicates(allowList) ==> NoDuplicates(tail);
      if head in EncodedIds(b64, tail) {
        assert EncodedIds(b64, allowList) == EncodedIds(b64, tail);
        var i :| 0 <= i < |tail| && b64.encode(tail[i]) == head;
        Distinguished(b64, tail[i], allowList[0]);
        assert allowList[i + 1] == allowList[0];
      } else {
        assert |EncodedIds(b64, allowList)| == 1 + |EncodedIds(b64, tail)|;
        if NoDuplicates(tail) {
          forall i, j | 0 <= i < j < |allowList| ensures allowList[i] != allowList[j] {
            assert allowList[j] == tail[j - 1];
            assert i > 0 ==> allowList[i] == tail[i - 1];
          }
        }
      }
    }
  }

  lemma SubsetOfSameSize(a: set<string>, b: set<string>)
    requires a <= b && |a| >= |b|
    ensures a == b
  {
    assert b == a + (b - a);
  }

  /** Pigeonhole: as many allowed keys as listed credentials leave no duplicate and no gap. */
  lemma KeysMatchAllowList(b64: Base64, allowList: seq<bytes>, keys: set<string>)
    requires RoundTrips(b64) && keys <= EncodedIds(b64, allowList)
    ensures |keys| == |allowList| <==> NoDuplicates(allowList) && keys == EncodedIds(b64, allowList)
  {
    CountDistinct(b64, allowList);
    if |keys| == |allowList| {
      SubsetOfSameSize(keys, EncodedIds(b64, allowList));
    }
  }
}
