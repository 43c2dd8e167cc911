/** Fixed-width big-endian integers, as `to_be_bytes` and `from_be_bytes` write and read them. */
module BigEndian {
  import opened Base

  /** The low `width` bytes of `n`, most significant first. */
  function Put(n: nat, width: nat): (b: Bytes)
    ensures |b| == width
  {
    if width == 0 then [] else Put(n / 256, width - 1) + [n % 256]
  }

  function Get(b: Bytes): nat {
    if b == [] then 0 else 256 * Get(b[..|b| - 1]) + b[|b| - 1]
  }

  /** How many values `width` bytes can hold. */
  function Capacity(width: nat): nat {
    if width == 0 then 1 else 256 * Capacity(width - 1)
  }

  lemma {:induction false} GetOfPut(n: nat, width: nat)
    requires n < Capacity(width)
    ensures Get(Put(n, width)) == n
  {
    if width > 0 {
      GetOfPut(n / 256, width - 1);
      assert Put(n, width)[..width - 1] == Put(n / 256, width - 1);
    }
  }

  lemma {:induction false} PutOfGet(b: Bytes)
    ensures Get(b) < Capacity(|b|)
    ensures Put(Get(b), |b|) == b
  {
    if b != [] {
      var front, last := b[..|b| - 1], b[|b| - 1];
      PutOfGet(front);
      assert Get(b) / 256 == Get(front) && Get(b) % 256 == last;
      assert b == front + [last];
    }
  }

  lemma WordCapacities()
    ensures Capacity(4) == U32_MAX + 1
    ensures Capacity(8) == U64_MAX + 1
  {
    assert Capacity(1) == 0x100 && Capacity(2) == 0x1_0000 && Capacity(3) == 0x100_0000;
    assert Capacity(4) == 0x1_0000_0000;
    assert Capacity(5) == 0x100_0000_0000 && Capacity(6) == 0x1_0000_0000_0000;
    assert Capacity(7) == 0x100_0000_0000_0000;
  }

  lemma {:induction false} PutIsInjective(m: nat, n: nat, width: nat)
    requires m < Capacity(width) && n < Capacity(width) && Put(m, width) == Put(n, width)
    ensures m == n
  {
    GetOfPut(m, width);
    GetOfPut(n, width);
  }
}
