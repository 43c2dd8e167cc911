/**
 Values that several modules share: optional values, results, bytes, node ids, apply
 outcomes and the fixed-width integer ranges of the source.
 */
module Base {

  datatype Option<+T> = None | Some(value: T)

  datatype Result<+T, +E> = Ok(value: T) | Err(error: E)

  type Byte = b: int | 0 <= b < 256

  type Bytes = seq<Byte>

  type NodeId = Bytes

  /** What applying a command answers: nothing, a value, or the state a failed compare saw. */
  datatype ApplyOutcome =
    | NoValue
    | Value(value: Bytes)
    | CasFailed(currentIndex: nat, currentValue: Option<Bytes>)

  const U32_MAX := 0xFFFF_FFFF

  const U64_MAX := 0xFFFF_FFFF_FFFF_FFFF

  type U32 = n: int | 0 <= n <= U32_MAX

  type U64 = n: int | 0 <= n <= U64_MAX

  lemma SubsetSize<T>(a: set<T>, b: set<T>)
    requires a <= b
    ensures |a| <= |b| && (|a| == |b| ==> a == b)
  {
    assert b == a + (b - a);
  }
}
