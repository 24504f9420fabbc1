/** Values shared by the discovery, transfer and selection models. */
module Common {

  /** One octet on the wire or in a file. */
  type Byte = b: int | 0 <= b < 256

  /** What one socket read or one file read returns. */
  type Bytes = seq<Byte>

  datatype Option<T> = None | Some(value: T)

  /** The bytes of a sequence of chunks, in order. */
  function Flatten(chunks: seq<Bytes>): Bytes
  {
    if chunks == [] then [] else chunks[0] + Flatten(chunks[1..])
  }

  lemma {:induction false} FlattenAppend(a: seq<Bytes>, b: seq<Bytes>)
    ensures Flatten(a + b) == Flatten(a) + Flatten(b)
  {
    if a == [] {
      assert a + b == b;
    } else {
      assert (a + b)[1..] == a[1..] + b;
      FlattenAppend(a[1..], b);
    }
  }

  /** No element occurs twice. */
  predicate NoDuplicates<T(==)>(s: seq<T>)
  {
    forall i, j :: 0 <= i < j < |s| ==> s[i] != s[j]
  }
}
