/** The checksum of the CashAddr format ("Checksum" section of its specification) as algebra:
    a register of eight 5-bit symbols, most significant first, that absorbs one symbol a step.
    Nothing here knows how JavaScript splits the register into two words; that is
    PolyModWords.

    Words are never compared through full linearity of the step.  It is enough that two
    registers with the same top symbol feed back the same taps, so that their difference is
    merely shifted. */
module PolyMod {

  type Symbol = bv5
  type Word = seq<Symbol>
  type Register = r: seq<Symbol> | |r| == 8 witness Zeros(8)

  function Zeros(n: nat): (w: Word)
    ensures |w| == n
  {
    seq(n, i => 0)
  }

  const ONE: Register := [0, 0, 0, 0, 0, 0, 0, 1]

  /** A 40-bit number as symbols. */
  function FortyBits(c: bv40): Register {
    [(c >> 35) as Symbol, ((c >> 30) & 31) as Symbol, ((c >> 25) & 31) as Symbol, ((c >> 20) & 31) as Symbol,
     ((c >> 15) & 31) as Symbol, ((c >> 10) & 31) as Symbol, ((c >> 5) & 31) as Symbol, (c & 31) as Symbol]
  }

  const GENERATOR: seq<bv40> := [0x98f2bc8e61, 0x79b76d99e2, 0xf33e5fb3c4, 0xae2eabe2a8, 0x1e4f43e470]

  function Xor(a: Word, b: Word): (r: Word)
    requires |a| == |b|
    ensures |r| == |a|
  {
    seq(|a|, i requires 0 <= i < |a| => a[i] ^ b[i])
  }

  /** Bit i of a symbol. */
  predicate Bit(s: Symbol, i: nat) {
    s & (if i == 0 then 1 else if i == 1 then 2 else if i == 2 then 4 else if i == 3 then 8 else 16) != 0
  }

  /** The sum of the generators selected by the k low bits of the symbol shifted out. */
  function Taps(top: Symbol, k: nat): Register
    requires k <= 5
  {
    if k == 0 then Zeros(8)
    else if Bit(top, k - 1) then Xor(Taps(top, k - 1), FortyBits(GENERATOR[k - 1]))
    else Taps(top, k - 1)
  }

  function Step(c: Register, d: Symbol): Register {
    Xor(c[1..] + [d], Taps(c[0], 5))
  }

  function Run(c: Register, w: Word): Register {
    if w == [] then c else Step(Run(c, w[..|w| - 1]), w[|w| - 1])
  }

  function Checksum(w: Word): Register {
    Xor(Run(ONE, w), ONE)
  }

  // ----- sums of words

  lemma XorZero(a: Word)
    ensures Xor(a, Zeros(|a|)) == a && Xor(a, a) == Zeros(|a|)
  {
  }

  lemma XorInjective(a: Word, b: Word, f: Word)
    requires |a| == |b| == |f| && Xor(a, f) == Xor(b, f)
    ensures a == b
  {
    forall i | 0 <= i < |a| ensures a[i] == b[i] {
      assert Xor(a, f)[i] == Xor(b, f)[i];
    }
  }

  // ----- one step

  lemma TapsLow(s: Symbol)
    ensures Taps(s, 5)[7] == s
  {
    assert Taps(s, 1)[7] == s & 1;
    assert Taps(s, 2)[7] == s & 3;
    assert Taps(s, 3)[7] == s & 7;
    assert Taps(s, 4)[7] == s & 15;
  }

  lemma StepLow(c: Register, d: Symbol)
    ensures Step(c, d)[7] == d ^ c[0]
  {
    TapsLow(c[0]);
  }

  /** Registers that agree in their top symbol have a difference that is only shifted. */
  lemma StepSameTop(a: Register, b: Register, d: Symbol, e: Symbol)
    requires a[0] == b[0]
    ensures Xor(Step(a, d), Step(b, e)) == Xor(a[1..], b[1..]) + [d ^ e]
  {
  }

  lemma StepSameTopInjective(a: Register, b: Register, d: Symbol, e: Symbol)
    requires a[0] == b[0] && Step(a, d) == Step(b, e)
    ensures a == b && d == e
  {
    XorInjective(a[1..] + [d], b[1..] + [e], Taps(a[0], 5));
    assert a == [a[0]] + (a[1..] + [d])[..7] && b == [b[0]] + (b[1..] + [e])[..7];
    assert (a[1..] + [d])[7] == d && (b[1..] + [e])[7] == e;
  }

  /** No two registers collide under the same symbol: the symbol shifted out can be read
      back from the low symbol of the result. */
  lemma StepInjective(a: Register, b: Register, d: Symbol)
    requires Step(a, d) == Step(b, d)
    ensures a == b
  {
    StepLow(a, d);
    StepLow(b, d);
    StepSameTopInjective(a, b, d, d);
  }

  // ----- the code over the field of 32 elements

  /** Multiplication by the generator a of the field, where a^5 + a^3 + 1 = 0. */
  function Double(s: Symbol): Symbol {
    (s << 1) ^ (if s & 16 != 0 then 9 else 0)
  }

  function DoubleAll(w: Word): (r: Word)
    ensures |r| == |w|
  {
    seq(|w|, i requires 0 <= i < |w| => Double(w[i]))
  }

  lemma DoubleXor(a: Symbol, b: Symbol)
    ensures Double(a ^ b) == Double(a) ^ Double(b)
  {
  }

  lemma DoubleAllXor(a: Word, b: Word)
    requires |a| == |b|
    ensures DoubleAll(Xor(a, b)) == Xor(DoubleAll(a), DoubleAll(b))
  {
    forall i | 0 <= i < |a| ensures Double(a[i] ^ b[i]) == Double(a[i]) ^ Double(b[i]) {
      DoubleXor(a[i], b[i]);
    }
  }

  lemma FirstGenerator()
    ensures FortyBits(GENERATOR[0]) == [19, 3, 25, 11, 25, 3, 19, 1]
  {
  }

  /** Each generator is the double of the one before. */
  lemma GeneratorsDouble(i: nat)
    requires i < 4
    ensures FortyBits(GENERATOR[i + 1]) == DoubleAll(FortyBits(GENERATOR[i]))
  {
    if i == 0 {} else if i == 1 {} else if i == 2 {} else {}
  }

  /** The taps of a symbol as a sum over its five bits. */
  function Scaled(w: Word, s: Symbol, k: nat): (r: Word)
    requires k <= 5
    ensures |r| == |w|
  {
    if k == 0 then Zeros(|w|)
    else if Bit(s, k - 1) then Xor(Scaled(w, s, k - 1), Doubled(w, k - 1))
    else Scaled(w, s, k - 1)
  }

  function Doubled(w: Word, k: nat): (r: Word)
    ensures |r| == |w|
  {
    if k == 0 then w else DoubleAll(Doubled(w, k - 1))
  }

  lemma {:induction false} GeneratorIsDoubled(k: nat)
    requires k < 5
    ensures FortyBits(GENERATOR[k]) == Doubled(FortyBits(GENERATOR[0]), k)
  {
    if k > 0 {
      GeneratorIsDoubled(k - 1);
      GeneratorsDouble(k - 1);
    }
  }

  /** Feeding back a symbol adds the first generator, multiplied by it in the field. */
  lemma {:induction false} TapsScaled(s: Symbol, k: nat)
    requires k <= 5
    ensures Taps(s, k) == Scaled(FortyBits(GENERATOR[0]), s, k)
  {
    if k > 0 {
      TapsScaled(s, k - 1);
      GeneratorIsDoubled(k - 1);
    }
  }

  /** So the taps are linear over the field. */
  lemma TapsDouble(s: Symbol)
    ensures Taps(Double(s), 5) == DoubleAll(Taps(s, 5))
  {
    var g := FortyBits(GENERATOR[0]);
    TapsScaled(s, 5);
    TapsScaled(Double(s), 5);
    forall j | 0 <= j < 8 ensures Scaled(g, Double(s), 5)[j] == Double(Scaled(g, s, 5)[j]) {
      ScaledAt(g, s, j);
      ScaledAt(g, Double(s), j);
      TimesDouble(g[j], s);
    }
  }

  /** The product of two symbols in the field: the doubles of x that the bits of s select. */
  function Times(x: Symbol, s: Symbol): Symbol {
    AddDoubles(0, x, s, 0)
  }

  function AddDoubles(sum: Symbol, x: Symbol, s: Symbol, k: nat): Symbol
    requires k <= 5
    decreases 5 - k
  {
    if k == 5 then sum else AddDoubles(if Bit(s, k) then sum ^ x else sum, Double(x), s, k + 1)
  }

  /** Doubling a factor doubles the product. */
  lemma {:induction false} TimesOfDouble(sum: Symbol, x: Symbol, s: Symbol, k: nat)
    requires k <= 5
    ensures AddDoubles(Double(sum), Double(x), s, k) == Double(AddDoubles(sum, x, s, k))
    decreases 5 - k
  {
    if k < 5 {
      DoubleXor(sum, x);
      TimesOfDouble(if Bit(s, k) then sum ^ x else sum, Double(x), s, k + 1);
    }
  }

  lemma DoubledLow(x: Symbol, s: Symbol)
    requires s < 16
    ensures Times(x, Double(s)) == Times(Double(x), s)
  {
  }

  lemma DoubledMiddle(x: Symbol, s: Symbol)
    requires 16 <= s < 24
    ensures Times(x, Double(s)) == Times(Double(x), s)
  {
  }

  lemma DoubledHigh(x: Symbol, s: Symbol)
    requires 24 <= s
    ensures Times(x, Double(s)) == Times(Double(x), s)
  {
  }

  lemma TimesDouble(x: Symbol, s: Symbol)
    ensures Times(x, Double(s)) == Double(Times(x, s))
  {
    TimesOfDouble(0, x, s, 0);
    if s < 16 {
      DoubledLow(x, s);
    } else if s < 24 {
      DoubledMiddle(x, s);
    } else {
      DoubledHigh(x, s);
    }
  }

  function DoubleTimes(x: Symbol, k: nat): Symbol {
    if k == 0 then x else Double(DoubleTimes(x, k - 1))
  }

  lemma {:induction false} DoubledAt(w: Word, k: nat, j: nat)
    requires j < |w|
    ensures Doubled(w, k)[j] == DoubleTimes(w[j], k)
  {
    if k > 0 {
      DoubledAt(w, k - 1, j);
    }
  }

  lemma {:induction false} ScaledFrom(w: Word, s: Symbol, k: nat, j: nat)
    requires k <= 5 && j < |w|
    ensures AddDoubles(Scaled(w, s, k)[j], DoubleTimes(w[j], k), s, k) == Scaled(w, s, 5)[j]
    decreases 5 - k
  {
    if k < 5 {
      DoubledAt(w, k, j);
      ScaledFrom(w, s, k + 1, j);
    }
  }

  lemma ScaledAt(w: Word, s: Symbol, j: nat)
    requires j < |w|
    ensures Scaled(w, s, 5)[j] == Times(w[j], s)
  {
    ScaledFrom(w, s, 0, j);
  }

  /** Feeding back a symbol multiplies the coefficients of the code's generator polynomial by it. */
  lemma TapsAreProducts(s: Symbol, j: nat)
    requires j < 8
    ensures Taps(s, 5)[j] == Times([19, 3, 25, 11, 25, 3, 19, 1][j], s)
  {
    FirstGenerator();
    TapsScaled(s, 5);
    ScaledAt(FortyBits(GENERATOR[0]), s, j);
  }

  // ----- whole words

  lemma {:induction false} RunConcat(c: Register, u: Word, v: Word)
    ensures Run(c, u + v) == Run(Run(c, u), v)
  {
    if v == [] {
      assert u + v == u;
    } else {
      var n := |v| - 1;
      assert (u + v)[..|u + v| - 1] == u + v[..n];
      RunConcat(c, u, v[..n]);
    }
  }

  lemma {:induction false} RunInjective(a: Register, b: Register, w: Word)
    requires Run(a, w) == Run(b, w)
    ensures a == b
  {
    if w != [] {
      var n := |w| - 1;
      StepInjective(Run(a, w[..n]), Run(b, w[..n]), w[n]);
      RunInjective(a, b, w[..n]);
    }
  }

  lemma TopsAgree(a: Register, b: Register, rest: Word)
    requires Xor(a, b) == [0] + rest
    ensures a[0] == b[0] && Xor(a[1..], b[1..]) == rest
  {
    assert a[0] ^ b[0] == Xor(a, b)[0];
    assert Xor(a[1..], b[1..]) == Xor(a, b)[1..];
  }

  lemma WindowGrows(a: Register, b: Register, difference: Word, d: Symbol, e: Symbol)
    requires |difference| <= 7 && Xor(a, b) == Zeros(8 - |difference|) + difference
    ensures Xor(Step(a, d), Step(b, e)) == Zeros(7 - |difference|) + (difference + [d ^ e])
  {
    var rest := Zeros(7 - |difference|) + difference;
    assert Zeros(8 - |difference|) == [0] + Zeros(7 - |difference|);
    assert Zeros(8 - |difference|) + difference == [0] + rest;
    TopsAgree(a, b, rest);
    StepSameTop(a, b, d, e);
    assert rest + [d ^ e] == Zeros(7 - |difference|) + (difference + [d ^ e]);
  }

  lemma XorSnoc(u: Word, v: Word)
    requires |u| == |v| > 0
    ensures Xor(u, v) == Xor(u[..|u| - 1], v[..|v| - 1]) + [u[|u| - 1] ^ v[|v| - 1]]
  {
  }

  /** Up to eight symbols read from the same register leave exactly their own difference. */
  lemma {:induction false} WindowDifference(c: Register, u: Word, v: Word)
    requires |u| == |v| <= 8
    ensures Xor(Run(c, u), Run(c, v)) == Zeros(8 - |u|) + Xor(u, v)
  {
    if u == [] {
      XorZero(c);
      assert Zeros(8) + Xor(u, v) == Zeros(8);
    } else {
      var n := |u| - 1;
      WindowDifference(c, u[..n], v[..n]);
      WindowGrows(Run(c, u[..n]), Run(c, v[..n]), Xor(u[..n], v[..n]), u[n], v[n]);
      XorSnoc(u, v);
    }
  }

  lemma WindowInjective(c: Register, u: Word, v: Word)
    requires |u| == |v| <= 8 && Run(c, u) == Run(c, v)
    ensures u == v
  {
    WindowDifference(c, u, v);
    XorZero(Run(c, u));
    forall i | 0 <= i < |u| ensures u[i] == v[i] {
      assert u[i] ^ v[i] == (Zeros(8 - |u|) + Xor(u, v))[8 - |u| + i] == 0;
    }
  }

  /** Burst detection at any length: words that differ only inside a window of eight symbols
      have different checksums, so at most one of them is valid.  Single substitutions and
      swaps of neighbours are special cases. */
  lemma BurstDetected(u: Word, v: Word, at: nat)
    requires |u| == |v| && u != v
    requires forall k :: 0 <= k < |u| && !(at <= k < at + 8) ==> u[k] == v[k]
    ensures Checksum(u) != Checksum(v)
  {
    var i := if at < |u| then at else |u|;
    var j := if at + 8 < |u| then at + 8 else |u|;
    assert u[..i] == v[..i] && u[j..] == v[j..];
    assert u == u[..i] + u[i..j] + u[j..] && v == v[..i] + v[i..j] + v[j..];
    RunConcat(ONE, u[..i] + u[i..j], u[j..]);
    RunConcat(ONE, v[..i] + v[i..j], v[j..]);
    RunConcat(ONE, u[..i], u[i..j]);
    RunConcat(ONE, v[..i], v[i..j]);
    if Checksum(u) == Checksum(v) {
      var c := Run(ONE, u[..i]);
      XorInjective(Run(ONE, u), Run(ONE, v), ONE);
      RunInjective(Run(c, u[i..j]), Run(c, v[i..j]), u[j..]);
      WindowInjective(c, u[i..j], v[i..j]);
    }
  }

  /** The last eight symbols enter the checksum unchanged. */
  lemma ChecksumTail(w: Word, tail: Word)
    requires |tail| == 8
    ensures Checksum(w + tail) == Xor(Checksum(w + Zeros(8)), tail)
  {
    var c := Run(ONE, w);
    RunConcat(ONE, w, tail);
    RunConcat(ONE, w, Zeros(8));
    WindowDifference(c, tail, Zeros(8));
    XorZero(tail);
    XorMove(Run(c, tail), Run(c, Zeros(8)), tail, ONE);
  }

  lemma XorMove(x: Word, y: Word, t: Word, one: Word)
    requires |x| == |y| == |t| == |one| && Xor(x, y) == t
    ensures Xor(x, one) == Xor(Xor(y, one), t)
  {
    forall i | 0 <= i < |x| ensures Xor(x, one)[i] == Xor(Xor(y, one), t)[i] {
      assert t[i] == x[i] ^ y[i];
    }
  }

  /** Exactly one tail of eight symbols makes a word valid: the checksum computed over eight
      zeros in its place. */
  lemma ChecksumComplete(w: Word, tail: Word)
    requires |tail| == 8
    ensures Checksum(w + tail) == Zeros(8) <==> tail == Checksum(w + Zeros(8))
  {
    var c := Checksum(w + Zeros(8));
    ChecksumTail(w, tail);
    XorZero(c);
    if Xor(c, tail) == Zeros(8) {
      forall i | 0 <= i < 8 ensures c[i] == tail[i] {
        assert c[i] ^ tail[i] == Zeros(8)[i] == 0;
      }
    }
  }

  /** Different registers, as left by different prefixes, never agree on a payload. */
  lemma PrefixesSeparated(p: Word, q: Word, payload: Word)
    requires Run(ONE, p) != Run(ONE, q)
    ensures Checksum(p + payload) != Checksum(q + payload)
  {
    RunConcat(ONE, p, payload);
    RunConcat(ONE, q, payload);
    if Checksum(p + payload) == Checksum(q + payload) {
      XorInjective(Run(ONE, p + payload), Run(ONE, q + payload), ONE);
      RunInjective(Run(ONE, p), Run(ONE, q), payload);
    }
  }

  lemma TapsZero()
    ensures Taps(0, 5) == Zeros(8)
  {
    assert Taps(0, 3) == Zeros(8);
  }

  lemma StepFromZero(d: Symbol)
    ensures Step(Zeros(8), d) == Zeros(7) + [d]
  {
    TapsZero();
  }

  /** A register that a zero symbol leaves alone and that some symbol turns into ONE is zero. */
  lemma FixpointIsZero(x: Register, s: Symbol)
    requires Step(x, 0) == x && Step(x, s) == ONE
    ensures x == Zeros(8) && s == 1
  {
    StepSameTop(x, x, 0, s);
    XorZero(x[1..]);
    assert forall i :: 0 <= i < 7 ==> Xor(Step(x, 0), Step(x, s))[i] == 0;
    assert forall i :: 0 <= i < 7 ==> x[i] ^ ONE[i] == 0;
    TapsZero();
    assert Step(x, 0) == x[1..] + [0];
    assert x[7] == 0;
    assert x == Zeros(8);
    StepFromZero(s);
    assert (Zeros(7) + [s])[7] == ONE[7];
  }

  /** The checksum does not see every insertion: a zero symbol before the last symbol of a valid
      word goes unnoticed exactly when that last symbol is 1.  Parsing of addresses notices it
      by the length (AddressTexts.InsertedZeroRejected). */
  lemma InsertedZeroUndetected(u: Word, s: Symbol)
    requires Checksum(u + [s]) == Zeros(8)
    ensures Checksum(u + [0] + [s]) == Zeros(8) <==> s == 1
  {
    var x := Run(ONE, u);
    RunConcat(ONE, u, [s]);
    RunConcat(ONE, u + [0], [s]);
    RunConcat(ONE, u, [0]);
    assert Run(x, [s]) == Step(x, s) && Run(x, [0]) == Step(x, 0) && Run(Step(x, 0), [s]) == Step(Step(x, 0), s);
    XorZero(ONE);
    XorInjective(Step(x, s), ONE, ONE);
    StepFromZero(0);
    StepFromZero(1);
    if s == 1 {
      StepInjective(x, Zeros(8), 1);
    } else if Checksum(u + [0] + [s]) == Zeros(8) {
      XorInjective(Step(Step(x, 0), s), ONE, ONE);
      StepInjective(Step(x, 0), x, s);
      FixpointIsZero(x, s);
    }
  }
}
