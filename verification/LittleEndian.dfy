/** Fixed-width little-endian integers, as the write-ahead log stores them. */
module LittleEndian {
  import opened Base
  import opened BigEndian

  /** The low `width` bytes of `n`, least significant first. */
  function PutLe(n: nat, width: nat): (b: Bytes)
    ensures |b| == width
  {
    if width == 0 then [] else [n % 256] + PutLe(n / 256, width - 1)
  }

  function GetLe(b: Bytes): nat {
    if b == [] then 0 else b[0] + 256 * GetLe(b[1..])
  }

  lemma {:induction false} GetOfPutLe(n: nat, width: nat)
    requires n < Capacity(width)
    ensures GetLe(PutLe(n, width)) == n
  {
    if width > 0 {
      GetOfPutLe(n / 256, width - 1);
      assert PutLe(n, width)[1..] == PutLe(n / 256, width - 1);
    }
  }

  lemma {:induction false} PutOfGetLe(b: Bytes)
    ensures GetLe(b) < Capacity(|b|)
    ensures PutLe(GetLe(b), |b|) == b
  {
    if b != [] {
      PutOfGetLe(b[1..]);
      LowByteFirst(b[0], GetLe(b[1..]));
      assert b == [b[0]] + b[1..];
    }
  }

  lemma LowByteFirst(low: Byte, high: nat)
    ensures (low + 256 * high) % 256 == low && (low + 256 * high) / 256 == high
  {
  }

  lemma {:induction false} U32RoundTrip(n: U32)
    ensures GetLe(PutLe(n, 4)) == n
  {
    WordCapacities();
    GetOfPutLe(n, 4);
  }

  lemma {:induction false} U64RoundTrip(n: U64)
    ensures GetLe(PutLe(n, 8)) == n
  {
    WordCapacities();
    GetOfPutLe(n, 8);
  }

  lemma {:induction false} WordRanges(b: Bytes)
    ensures |b| == 4 ==> GetLe(b) <= U32_MAX
    ensures |b| == 8 ==> GetLe(b) <= U64_MAX
  {
    WordCapacities();
    PutOfGetLe(b);
  }
}
