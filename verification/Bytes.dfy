/** Numbers as big-endian buffers, the way the bignum helpers of the libraries write them. */
module Bytes {

  type Byte = b: int | 0 <= b < 256
  type Buffer = seq<Byte>

  function Power256(k: nat): (p: nat)
    ensures p > 0
  {
    if k == 0 then 1 else 256 * Power256(k - 1)
  }

  const TWO_TO_256: nat := 0x1_00000000_00000000_00000000_00000000_00000000_00000000_00000000_00000000

  lemma {:induction false} PowerSum(j: nat, k: nat)
    ensures Power256(j + k) == Power256(j) * Power256(k)
  {
    if j > 0 {
      PowerSum(j - 1, k);
    }
  }

  lemma PowerOfKeySize()
    ensures Power256(32) == TWO_TO_256
  {
    assert Power256(4) == 0x1_00000000;
    PowerSum(4, 4);
    PowerSum(8, 8);
    PowerSum(16, 16);
  }

  function FromBuffer(b: Buffer): nat {
    if b == [] then 0 else 256 * FromBuffer(b[..|b| - 1]) + b[|b| - 1]
  }

  /** Without a size: no leading zero byte, but at least one byte. */
  function Minimal(n: nat): (b: Buffer)
    ensures |b| > 0
  {
    if n < 256 then [n] else Minimal(n / 256) + [n % 256]
  }

  function ZeroBytes(n: nat): (b: Buffer)
    ensures |b| == n
  {
    seq(n, i => 0)
  }

  /** With a size: padded up to it, and never cut down to it, because the trimming helper
      returns its argument unchanged. */
  function Sized(n: nat, size: nat): Buffer {
    var b := Minimal(n);
    if |b| < size then ZeroBytes(size - |b|) + b else b
  }

  /** The low four bytes of an index. */
  function Index32(i: nat): (b: Buffer)
    ensures |b| == 4
  {
    [i / 0x100_0000 % 256, i / 0x1_0000 % 256, i / 0x100 % 256, i % 256]
  }

  lemma {:induction false} FromMinimal(n: nat)
    ensures FromBuffer(Minimal(n)) == n
  {
    if n >= 256 {
      FromMinimal(n / 256);
      assert Minimal(n)[..|Minimal(n)| - 1] == Minimal(n / 256);
    } else {
      assert Minimal(n)[..0] == [];
    }
  }

  lemma {:induction false} MinimalHead(n: nat)
    requires n > 0
    ensures Minimal(n)[0] != 0
  {
    if n >= 256 {
      MinimalHead(n / 256);
    }
  }

  lemma {:induction false} FromPadded(k: nat, b: Buffer)
    ensures FromBuffer(ZeroBytes(k) + b) == FromBuffer(b)
  {
    if b != [] {
      var n := |b| - 1;
      assert (ZeroBytes(k) + b)[..k + n] == ZeroBytes(k) + b[..n];
      FromPadded(k, b[..n]);
    } else if k > 0 {
      assert ZeroBytes(k) + b == ZeroBytes(k - 1) + [0];
      assert (ZeroBytes(k - 1) + [0])[..k - 1] == ZeroBytes(k - 1) + [];
      FromPadded(k - 1, []);
    } else {
      assert ZeroBytes(0) + b == b;
    }
  }

  lemma FromSized(n: nat, size: nat)
    ensures FromBuffer(Sized(n, size)) == n
  {
    FromMinimal(n);
    FromPadded(if |Minimal(n)| < size then size - |Minimal(n)| else 0, Minimal(n));
  }

  /** The natural length: one more than the number of times a byte can be dropped. */
  lemma {:induction false} MinimalLength(n: nat, size: nat)
    requires size > 0
    ensures |Minimal(n)| <= size <==> n < Power256(size)
    decreases size
  {
    if size == 1 {
      assert Power256(1) == 256 * Power256(0);
    } else if n >= 256 {
      MinimalLength(n / 256, size - 1);
    } else {
      PowerAtLeast(size - 1);
    }
  }

  lemma {:induction false} PowerAtLeast(k: nat)
    requires k > 0
    ensures Power256(k) >= 256
  {
    if k > 1 {
      PowerAtLeast(k - 1);
    } else {
      assert Power256(1) == 256 * Power256(0);
    }
  }

  lemma SizedLength(n: nat, size: nat)
    requires size > 0
    ensures |Sized(n, size)| == size <==> n < Power256(size)
  {
    MinimalLength(n, size);
  }

  /** Padding changes nothing exactly for numbers that fill the size. */
  lemma SizedIsMinimal(n: nat, size: nat)
    requires size > 1
    ensures Sized(n, size) == Minimal(n) <==> n >= Power256(size - 1)
  {
    MinimalLength(n, size - 1);
  }

  lemma Index32Value(i: nat)
    requires i < 0x1_0000_0000
    ensures var b: seq<int> := Index32(i); i == b[0] * 0x100_0000 + b[1] * 0x1_0000 + b[2] * 0x100 + b[3]
  {
    var high, low := i / 0x1_0000, i % 0x1_0000;
    assert i / 0x100_0000 == high / 256;
    assert i / 0x100 == high * 256 + low / 256;
    assert i / 0x100 % 256 == low / 256;
    assert i % 256 == low % 256;
    assert high == high / 256 % 256 * 256 + high % 256;
  }

  lemma Index32Injective(i: nat, j: nat)
    requires i < 0x1_0000_0000 && j < 0x1_0000_0000 && Index32(i) == Index32(j)
    ensures i == j
  {
    Index32Value(i);
    Index32Value(j);
  }

  lemma SizedInjective(m: nat, n: nat, size: nat)
    requires Sized(m, size) == Sized(n, size)
    ensures m == n
  {
    FromSized(m, size);
    FromSized(n, size);
  }

  /** Buffers of one length are different numbers. */
  lemma {:induction false} FromBufferInjective(a: Buffer, b: Buffer)
    requires |a| == |b| && FromBuffer(a) == FromBuffer(b)
    ensures a == b
  {
    if a != [] {
      var n := |a| - 1;
      LastByte(FromBuffer(a[..n]), FromBuffer(b[..n]), a[n], b[n]);
      FromBufferInjective(a[..n], b[..n]);
      assert a == a[..n] + [a[n]] && b == b[..n] + [b[n]];
    }
  }

  lemma LastByte(m: nat, n: nat, a: Byte, b: Byte)
    requires 256 * m + a == 256 * n + b
    ensures m == n && a == b
  {
  }
}
