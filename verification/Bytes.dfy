/** Bytes, big-endian 16-bit fields and the result types shared by every module. */
module Bytes {
  type byte = x: int | 0 <= x < 256
  type bytes = seq<byte>

  datatype Option<+T> = None | Some(value: T)

  datatype Result<+T, +E> = Success(value: T) | Failure(error: E)

  function Min(a: int, b: int): int {
    if a < b then a else b
  }

  /** binary.BigEndian.PutUint16 */
  function PutUint16(n: nat): bytes
    requires n < 0x1_0000
  {
    [n / 256, n % 256]
  }

  /** binary.BigEndian.Uint16 of the two bytes at `at`. */
  function Uint16(s: bytes, at: nat): nat
    requires at + 2 <= |s|
  {
    s[at] as int * 256 + s[at + 1] as int
  }

  function Flatten<T>(parts: seq<seq<T>>): seq<T> {
    if parts == [] then [] else parts[0] + Flatten(parts[1..])
  }

  lemma {:induction false} FlattenAppend<T>(a: seq<seq<T>>, b: seq<seq<T>>)
    ensures Flatten(a + b) == Flatten(a) + Flatten(b)
  {
    if a == [] {
      assert a + b == b;
    } else {
      assert (a + b)[1..] == a[1..] + b;
      FlattenAppend(a[1..], b);
    }
  }

  lemma Rejoin<T>(head: seq<T>, tail: seq<T>, n: nat)
    requires n <= |tail|
    ensures head + tail[..n] + tail[n..] == head + tail
  {
    assert tail[..n] + tail[n..] == tail;
  }

  lemma Associate<T>(a: seq<T>, b: seq<T>, c: seq<T>)
    ensures a + b + c == a + (b + c)
  {}
}
