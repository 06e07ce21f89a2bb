/** Fixed-width integer and byte-array types used by the codec.
    Integers are unbounded in Dafny; each Rust/alloy width is a subset type. */
module Primitives {

  const U64_LIMIT: nat := 0x1_0000_0000_0000_0000
  const U128_LIMIT: nat := 0x1_0000_0000_0000_0000_0000_0000_0000_0000
  const U256_LIMIT: nat := 0x1_0000_0000_0000_0000_0000_0000_0000_0000_0000_0000_0000_0000_0000_0000_0000_0000

  type Byte = x: nat | x < 256
  type U64 = x: nat | x < U64_LIMIT
  type U128 = x: nat | x < U128_LIMIT
  type U256 = x: nat | x < U256_LIMIT

  /** A run of `n` zero bytes. */
  function Zeros(n: nat): (z: seq<Byte>)
    ensures |z| == n
    ensures forall i :: 0 <= i < n ==> z[i] == 0
  {
    if n == 0 then [] else Zeros(n - 1) + [0]
  }

  /** alloy's `Address`: exactly 20 bytes. */
  type Address = s: seq<Byte> | |s| == 20 witness Zeros(20)

  /** alloy's `B256` (a storage key): exactly 32 bytes. */
  type B256 = s: seq<Byte> | |s| == 32 witness Zeros(32)

  /** 256 to the power `k`: the number of values a `k`-byte big-endian string can hold. */
  function Pow256(k: nat): (p: nat)
    ensures p >= 1
  {
    if k == 0 then 1 else 256 * Pow256(k - 1)
  }

  lemma {:induction false} Pow256Add(a: nat, b: nat)
    ensures Pow256(a + b) == Pow256(a) * Pow256(b)
  {
    if a > 0 {
      Pow256Add(a - 1, b);
      assert Pow256(a + b) == 256 * Pow256(a - 1 + b);
    }
  }

  lemma {:induction false} Pow256Mono(a: nat, b: nat)
    requires a <= b
    ensures Pow256(a) <= Pow256(b)
  {
    if a < b {
      Pow256Mono(a, b - 1);
    }
  }

  /** The alloy integer widths are powers of 256. */
  lemma Pow256Limits()
    ensures Pow256(8) == U64_LIMIT
    ensures Pow256(16) == U128_LIMIT
    ensures Pow256(32) == U256_LIMIT
  {
    assert Pow256(2) == 0x1_0000 by {
      assert Pow256(1) == 256;
    }
    Pow256Add(2, 2);
    Pow256Add(4, 4);
    Pow256Add(8, 8);
    Pow256Add(16, 16);
  }
}
