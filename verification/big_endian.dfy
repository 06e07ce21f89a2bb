/** Big-endian byte strings of natural numbers: the minimal form RLP uses for
    scalars and length prefixes, and the fixed-width form of `to_be_bytes`. */
module BigEndian {
  import opened Primitives

  /** Value of a big-endian byte string (`from_be_bytes`, `try_from_be_slice`). */
  function FromBytes(s: seq<Byte>): (n: nat)
    ensures n < Pow256(|s|)
  {
    if |s| == 0 then 0 else FromBytes(s[..|s| - 1]) * 256 + s[|s| - 1]
  }

  /** True when `s` has no leading zero byte (the empty string qualifies). */
  predicate NoLeadingZero(s: seq<Byte>) {
    |s| == 0 || s[0] != 0
  }

  /** Minimal big-endian form of `n`: empty for zero, never a leading zero byte. */
  function ToBytes(n: nat): (s: seq<Byte>)
    ensures NoLeadingZero(s)
    ensures |s| == 0 <==> n == 0
  {
    if n == 0 then [] else ToBytes(n / 256) + [n % 256]
  }

  /** Exactly `w` big-endian bytes of `n`, high bytes dropped (`to_be_bytes::<w>`). */
  function ToBytesFixed(n: nat, w: nat): (s: seq<Byte>)
    ensures |s| == w
  {
    if w == 0 then [] else ToBytesFixed(n / 256, w - 1) + [n % 256]
  }

  lemma {:induction false} FromToBytes(n: nat)
    ensures FromBytes(ToBytes(n)) == n
  {
    if n > 0 {
      var s := ToBytes(n);
      assert s[..|s| - 1] == ToBytes(n / 256);
      FromToBytes(n / 256);
    }
  }

  lemma {:induction false} FromBytesZero(s: seq<Byte>)
    requires FromBytes(s) == 0
    ensures forall i :: 0 <= i < |s| ==> s[i] == 0
  {
    if |s| > 0 {
      FromBytesZero(s[..|s| - 1]);
      forall i | 0 <= i < |s|
        ensures s[i] == 0
      {
        if i < |s| - 1 {
          assert s[i] == s[..|s| - 1][i];
        }
      }
    }
  }

  /** A minimal big-endian string is recovered from its value: the decoder's
      leading-zero rejection makes the scalar encoding canonical. */
  lemma {:induction false} ToFromBytes(s: seq<Byte>)
    requires NoLeadingZero(s)
    ensures ToBytes(FromBytes(s)) == s
  {
    if |s| > 0 {
      var init := s[..|s| - 1];
      var n := FromBytes(s);
      if n == 0 {
        FromBytesZero(s);
        assert false;
      }
      assert n / 256 == FromBytes(init) && n % 256 == s[|s| - 1];
      if |init| > 0 {
        assert init[0] == s[0];
      }
      ToFromBytes(init);
      assert s == init + [s[|s| - 1]];
    }
  }

  /** Minimal forms of values below 256^k take at most k bytes. */
  lemma {:induction false} ToBytesLength(n: nat, k: nat)
    requires n < Pow256(k)
    ensures |ToBytes(n)| <= k
  {
    if n > 0 {
      assert k > 0;
      assert n / 256 < Pow256(k - 1);
      ToBytesLength(n / 256, k - 1);
    }
  }

  /** Reading back a `w`-byte form yields `n` reduced modulo 256^w. */
  lemma {:induction false} FromBytesFixed(n: nat, w: nat)
    ensures FromBytes(ToBytesFixed(n, w)) == n % Pow256(w)
  {
    if w > 0 {
      var s := ToBytesFixed(n, w);
      assert s[..|s| - 1] == ToBytesFixed(n / 256, w - 1);
      FromBytesFixed(n / 256, w - 1);
      DivModStep(n, Pow256(w - 1));
    }
  }

  /** (n / 256 % p) * 256 + n % 256 is n % (256 * p). */
  lemma DivModStep(n: nat, p: nat)
    requires p > 0
    ensures (n / 256 % p) * 256 + n % 256 == n % (256 * p)
  {
    var q := n / 256;
    var r := n % 256;
    var a := q / p;
    var b := q % p;
    assert n == (256 * p) * a + (b * 256 + r);
    ModUnique(n, 256 * p, a, b * 256 + r);
  }

  lemma ModUnique(n: nat, m: nat, a: nat, c: nat)
    requires m > 0 && c < m && n == m * a + c
    ensures n % m == c
  {
    var d := n / m;
    assert m * d + n % m == n;
    if a > d {
      MulMono(m, d + 1, a);
      assert false;
    } else if a < d {
      MulMono(m, a + 1, d);
      assert false;
    }
  }

  lemma MulMono(m: nat, x: nat, y: nat)
    requires x <= y
    ensures m * x <= m * y
  {
  }

  /** The last `k` bytes of a `w`-byte form are the `k`-byte form. */
  lemma {:induction false} ToBytesFixedSuffix(n: nat, w: nat, k: nat)
    requires k <= w
    ensures ToBytesFixed(n, w)[w - k..] == ToBytesFixed(n, k)
  {
    if k > 0 {
      ToBytesFixedSuffix(n / 256, w - 1, k - 1);
      var s := ToBytesFixed(n / 256, w - 1);
      assert (s + [n % 256])[w - k..] == s[w - k..] + [n % 256];
    }
  }
}
