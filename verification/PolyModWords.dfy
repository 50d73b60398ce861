/** The checksum as the address code computes it: the register is two int32 words, of 8 and
    32 bits, updated in nested loops with signed shifts and a final sign repair.  The method
    is proved to compute the register of module PolyMod, read as a 40-bit number. */
module PolyModWords {
  import opened PolyMod

  /** The 32 bits of a JavaScript int32. */
  type Int32 = bv32

  const GENERATOR1: seq<Int32> := [0x98, 0x79, 0xf3, 0xae, 0x1e]
  const GENERATOR2: seq<Int32> := [0xf2bc8e61, 0xb76d99e2, 0x3e5fb3c4, 0x2eabe2a8, 0x4f43e470]

  /** The number a JavaScript int32 denotes. */
  function Signed(w: Int32): int {
    if w < 0x8000_0000 then w as int else w as int - 0x1_0000_0000
  }

  function HighWord(r: Register): Int32 {
    ((r[0] as Int32) << 3) | ((r[1] as Int32) >> 2)
  }

  function LowWord(r: Register): Int32 {
    ((r[1] as Int32) << 30) | ((r[2] as Int32) << 25) | ((r[3] as Int32) << 20) | ((r[4] as Int32) << 15)
    | ((r[5] as Int32) << 10) | ((r[6] as Int32) << 5) | (r[7] as Int32)
  }

  /** The base-32 number whose digits are the symbols of the word. */
  function Number(w: Word): nat {
    if w == [] then 0 else Number(w[..|w| - 1]) * 32 + w[|w| - 1] as int
  }

  lemma WordsXor(a: Register, b: Register)
    ensures HighWord(Xor(a, b)) == HighWord(a) ^ HighWord(b)
    ensures LowWord(Xor(a, b)) == LowWord(a) ^ LowWord(b)
  {
  }

  lemma GeneratorWords(i: nat)
    requires i < 5
    ensures HighWord(FortyBits(GENERATOR[i])) == GENERATOR1[i]
    ensures LowWord(FortyBits(GENERATOR[i])) == GENERATOR2[i]
  {
    if i == 0 {} else if i == 1 {} else if i == 2 {} else if i == 3 {} else {}
  }

  function Flag(i: nat): Int32
    requires i < 5
  {
    1 << i
  }

  lemma BitOfWord(s: Symbol, i: nat)
    requires i < 5
    ensures (s as Int32) & Flag(i) != 0 <==> Bit(s, i)
  {
    if i == 0 {} else if i == 1 {} else if i == 2 {} else if i == 3 {} else {}
  }

  lemma ShiftWords(r: Register, d: Symbol)
    ensures HighWord(r) >> 3 == r[0] as Int32
    ensures ((HighWord(r) & 0x07) << 5) | (LowWord(r) >> 27) == HighWord(r[1..] + [d])
    ensures ((LowWord(r) & 0x07ffffff) << 5) ^ (d as Int32) == LowWord(r[1..] + [d])
  {
  }

  lemma TapWords(r: Register, top: Symbol, i: nat)
    requires i < 5 && Bit(top, i)
    ensures HighWord(Xor(r, Taps(top, i + 1))) == HighWord(Xor(r, Taps(top, i))) ^ GENERATOR1[i]
    ensures LowWord(Xor(r, Taps(top, i + 1))) == LowWord(Xor(r, Taps(top, i))) ^ GENERATOR2[i]
  {
    var g := FortyBits(GENERATOR[i]);
    assert Xor(r, Taps(top, i + 1)) == Xor(Xor(r, Taps(top, i)), g);
    WordsXor(Xor(r, Taps(top, i)), g);
    GeneratorWords(i);
  }

  // ----- the step as the specification gives it

  datatype Terms = Done | Term(on: bool, generator: Int32, rest: Terms)

  function AddUp(word: Int32, terms: Terms): Int32
    decreases terms
  {
    match terms
    case Done => word
    case Term(on, generator, rest) => AddUp(if on then word ^ generator else word, rest)
  }

  /** The word of 8 bits after a step of the checksum in the CashAddr specification, whose
      40-bit register is taken apart. */
  function SpecHigh(c0: Int32, c1: Int32): Int32 {
    AddUp(((c0 & 0x07) << 5) | (c1 >> 27),
          Term(c0 & 8 != 0, 0x98, Term(c0 & 16 != 0, 0x79, Term(c0 & 32 != 0, 0xf3,
          Term(c0 & 64 != 0, 0xae, Term(c0 & 128 != 0, 0x1e, Done))))))
  }

  /** The word of 32 bits. */
  function SpecLow(c0: Int32, c1: Int32, d: Symbol): Int32 {
    AddUp(((c1 & 0x07ffffff) << 5) ^ (d as Int32),
          Term(c0 & 8 != 0, 0xf2bc8e61, Term(c0 & 16 != 0, 0xb76d99e2, Term(c0 & 32 != 0, 0x3e5fb3c4,
          Term(c0 & 64 != 0, 0x2eabe2a8, Term(c0 & 128 != 0, 0x4f43e470, Done))))))
  }

  function TermsOf(top: Symbol, generators: seq<Int32>, k: nat): Terms
    requires k <= 5 == |generators|
    decreases 5 - k
  {
    if k == 5 then Done else Term(Bit(top, k), generators[k], TermsOf(top, generators, k + 1))
  }

  /** One generator more, or not. */
  lemma TapOrNot(r: Register, top: Symbol, i: nat)
    requires i < 5
    ensures HighWord(Xor(r, Taps(top, i + 1)))
         == if Bit(top, i) then HighWord(Xor(r, Taps(top, i))) ^ GENERATOR1[i] else HighWord(Xor(r, Taps(top, i)))
    ensures LowWord(Xor(r, Taps(top, i + 1)))
         == if Bit(top, i) then LowWord(Xor(r, Taps(top, i))) ^ GENERATOR2[i] else LowWord(Xor(r, Taps(top, i)))
  {
    if Bit(top, i) {
      TapWords(r, top, i);
    } else {
      assert Taps(top, i + 1) == Taps(top, i);
    }
  }

  lemma {:induction false} AddUpHigh(r: Register, top: Symbol, k: nat)
    requires k <= 5
    ensures AddUp(HighWord(Xor(r, Taps(top, k))), TermsOf(top, GENERATOR1, k)) == HighWord(Xor(r, Taps(top, 5)))
    decreases 5 - k
  {
    if k < 5 {
      TapOrNot(r, top, k);
      AddUpHigh(r, top, k + 1);
    }
  }

  lemma {:induction false} AddUpLow(r: Register, top: Symbol, k: nat)
    requires k <= 5
    ensures AddUp(LowWord(Xor(r, Taps(top, k))), TermsOf(top, GENERATOR2, k)) == LowWord(Xor(r, Taps(top, 5)))
    decreases 5 - k
  {
    if k < 5 {
      TapOrNot(r, top, k);
      AddUpLow(r, top, k + 1);
    }
  }

  lemma TopFlags(r: Register)
    ensures HighWord(r) & 8 != 0 <==> Bit(r[0], 0)
    ensures HighWord(r) & 16 != 0 <==> Bit(r[0], 1)
    ensures HighWord(r) & 32 != 0 <==> Bit(r[0], 2)
    ensures HighWord(r) & 64 != 0 <==> Bit(r[0], 3)
    ensures HighWord(r) & 128 != 0 <==> Bit(r[0], 4)
  {
  }

  lemma FiveTerms(top: Symbol, generators: seq<Int32>, f0: bool, f1: bool, f2: bool, f3: bool, f4: bool)
    requires |generators| == 5
    requires f0 == Bit(top, 0) && f1 == Bit(top, 1) && f2 == Bit(top, 2) && f3 == Bit(top, 3) && f4 == Bit(top, 4)
    ensures TermsOf(top, generators, 0)
         == Term(f0, generators[0], Term(f1, generators[1], Term(f2, generators[2],
            Term(f3, generators[3], Term(f4, generators[4], Done)))))
  {
    assert TermsOf(top, generators, 3) == Term(f3, generators[3], Term(f4, generators[4], Done));
  }

  lemma AddUpStep(r: Register, d: Symbol)
    ensures HighWord(Step(r, d)) == AddUp(HighWord(r[1..] + [d]), TermsOf(r[0], GENERATOR1, 0))
    ensures LowWord(Step(r, d)) == AddUp(LowWord(r[1..] + [d]), TermsOf(r[0], GENERATOR2, 0))
  {
    var shifted: Register := r[1..] + [d];
    XorZero(shifted);
    assert Taps(r[0], 0) == Zeros(8);
    AddUpHigh(shifted, r[0], 0);
    AddUpLow(shifted, r[0], 0);
  }

  lemma TermsOfWord(r: Register)
    ensures var h := HighWord(r);
            TermsOf(r[0], GENERATOR1, 0)
            == Term(h & 8 != 0, 0x98, Term(h & 16 != 0, 0x79, Term(h & 32 != 0, 0xf3,
               Term(h & 64 != 0, 0xae, Term(h & 128 != 0, 0x1e, Done)))))
    ensures var h := HighWord(r);
            TermsOf(r[0], GENERATOR2, 0)
            == Term(h & 8 != 0, 0xf2bc8e61, Term(h & 16 != 0, 0xb76d99e2, Term(h & 32 != 0, 0x3e5fb3c4,
               Term(h & 64 != 0, 0x2eabe2a8, Term(h & 128 != 0, 0x4f43e470, Done)))))
  {
    var h := HighWord(r);
    TopFlags(r);
    FiveTerms(r[0], GENERATOR1, h & 8 != 0, h & 16 != 0, h & 32 != 0, h & 64 != 0, h & 128 != 0);
    FiveTerms(r[0], GENERATOR2, h & 8 != 0, h & 16 != 0, h & 32 != 0, h & 64 != 0, h & 128 != 0);
  }

  lemma SpecHighIs(c0: Int32, c1: Int32, shifted: Int32, terms: Terms)
    requires shifted == ((c0 & 0x07) << 5) | (c1 >> 27)
    requires terms == Term(c0 & 8 != 0, 0x98, Term(c0 & 16 != 0, 0x79, Term(c0 & 32 != 0, 0xf3,
                      Term(c0 & 64 != 0, 0xae, Term(c0 & 128 != 0, 0x1e, Done)))))
    ensures SpecHigh(c0, c1) == AddUp(shifted, terms)
  {
  }

  lemma SpecLowIs(c0: Int32, c1: Int32, d: Symbol, shifted: Int32, terms: Terms)
    requires shifted == ((c1 & 0x07ffffff) << 5) ^ (d as Int32)
    requires terms == Term(c0 & 8 != 0, 0xf2bc8e61, Term(c0 & 16 != 0, 0xb76d99e2, Term(c0 & 32 != 0, 0x3e5fb3c4,
                      Term(c0 & 64 != 0, 0x2eabe2a8, Term(c0 & 128 != 0, 0x4f43e470, Done)))))
    ensures SpecLow(c0, c1, d) == AddUp(shifted, terms)
  {
  }

  lemma StepHighWord(r: Register, d: Symbol)
    ensures HighWord(Step(r, d)) == SpecHigh(HighWord(r), LowWord(r))
  {
    ShiftWords(r, d);
    TermsOfWord(r);
    AddUpStep(r, d);
    SpecHighIs(HighWord(r), LowWord(r), HighWord(r[1..] + [d]), TermsOf(r[0], GENERATOR1, 0));
  }

  lemma StepLowWord(r: Register, d: Symbol)
    ensures LowWord(Step(r, d)) == SpecLow(HighWord(r), LowWord(r), d)
  {
    ShiftWords(r, d);
    TermsOfWord(r);
    AddUpStep(r, d);
    SpecLowIs(HighWord(r), LowWord(r), d, LowWord(r[1..] + [d]), TermsOf(r[0], GENERATOR2, 0));
  }

  /** The two words take the step that the specification gives. */
  lemma StepWords(r: Register, d: Symbol)
    ensures HighWord(Step(r, d)) == SpecHigh(HighWord(r), LowWord(r))
    ensures LowWord(Step(r, d)) == SpecLow(HighWord(r), LowWord(r), d)
  {
    StepHighWord(r, d);
    StepLowWord(r, d);
  }

  lemma LowDigits(r1: Symbol, r2: Symbol, r3: Symbol, r4: Symbol, r5: Symbol, r6: Symbol, r7: Symbol)
    ensures (((r1 as Int32) << 30) | ((r2 as Int32) << 25) | ((r3 as Int32) << 20) | ((r4 as Int32) << 15)
             | ((r5 as Int32) << 10) | ((r6 as Int32) << 5) | (r7 as Int32)) as int
         == (r1 & 3) as int * 0x4000_0000 + r2 as int * 0x200_0000 + r3 as int * 0x10_0000 + r4 as int * 0x8000
            + r5 as int * 0x400 + r6 as int * 0x20 + r7 as int
  {
  }

  lemma HighDigits(r0: Symbol, r1: Symbol)
    ensures (((r0 as Int32) << 3) | ((r1 as Int32) >> 2)) as int * 4 + (r1 & 3) as int == r0 as int * 32 + r1 as int
  {
  }

  lemma NumberSnoc(w: Word, d: Symbol)
    ensures Number(w + [d]) == Number(w) * 32 + d as int
  {
    assert (w + [d])[..|w|] == w;
  }

  lemma NumberOfTwo(w: Word, a: Symbol, b: Symbol)
    ensures Number(w + [a, b]) == Number(w) * 0x400 + a as int * 0x20 + b as int
  {
    NumberSnoc(w, a);
    NumberSnoc(w + [a], b);
    assert w + [a, b] == w + [a] + [b];
  }

  lemma NumberOfEight(a: Symbol, b: Symbol, c: Symbol, d: Symbol, e: Symbol, f: Symbol, g: Symbol, h: Symbol)
    ensures Number([a, b, c, d, e, f, g, h])
         == (((a as int * 0x20 + b as int) * 0x400 + c as int * 0x20 + d as int) * 0x400
             + e as int * 0x20 + f as int) * 0x400 + g as int * 0x20 + h as int
  {
    NumberOfTwo([], a, b);
    NumberOfTwo([a, b], c, d);
    NumberOfTwo([a, b, c, d], e, f);
    NumberOfTwo([a, b, c, d, e, f], g, h);
    assert [] + [a, b] == [a, b];
    assert [a, b] + [c, d] == [a, b, c, d];
    assert [a, b, c, d] + [e, f] == [a, b, c, d, e, f];
    assert [a, b, c, d, e, f] + [g, h] == [a, b, c, d, e, f, g, h];
  }

  lemma NumberOfRegister(r: Register)
    ensures Number(r) == r[0] as int * 0x8_0000_0000 + r[1] as int * 0x4000_0000 + r[2] as int * 0x200_0000
                         + r[3] as int * 0x10_0000 + r[4] as int * 0x8000 + r[5] as int * 0x400 + r[6] as int * 0x20 + r[7] as int
  {
    NumberOfEight(r[0], r[1], r[2], r[3], r[4], r[5], r[6], r[7]);
    assert r == [r[0], r[1], r[2], r[3], r[4], r[5], r[6], r[7]];
  }

  lemma JoinDigits(high: int, low: int, split: int, a: int, b: int, c: int, d: int, e: int, f: int, g: int, h: int)
    requires high * 4 + split == a * 32 + b
    requires low == split * 0x4000_0000 + c * 0x200_0000 + d * 0x10_0000 + e * 0x8000 + f * 0x400 + g * 0x20 + h
    ensures high * 0x1_0000_0000 + low
         == a * 0x8_0000_0000 + b * 0x4000_0000 + c * 0x200_0000 + d * 0x10_0000 + e * 0x8000 + f * 0x400 + g * 0x20 + h
  {
  }

  lemma WordsDigits(r: Register)
    ensures HighWord(r) as int * 0x1_0000_0000 + LowWord(r) as int
         == r[0] as int * 0x8_0000_0000 + r[1] as int * 0x4000_0000 + r[2] as int * 0x200_0000
            + r[3] as int * 0x10_0000 + r[4] as int * 0x8000 + r[5] as int * 0x400 + r[6] as int * 0x20 + r[7] as int
  {
    LowDigits(r[1], r[2], r[3], r[4], r[5], r[6], r[7]);
    HighDigits(r[0], r[1]);
    JoinDigits(HighWord(r) as int, LowWord(r) as int, (r[1] & 3) as int, r[0] as int, r[1] as int, r[2] as int, r[3] as int,
               r[4] as int, r[5] as int, r[6] as int, r[7] as int);
  }

  /** The two words, the low one read as an unsigned number, spell the register. */
  lemma WordsNumber(r: Register)
    ensures HighWord(r) as int * 0x1_0000_0000 + LowWord(r) as int == Number(r)
  {
    WordsDigits(r);
    NumberOfRegister(r);
  }

  lemma WordsOfChecksum(w: Word)
    ensures HighWord(Checksum(w)) == HighWord(Run(ONE, w)) && LowWord(Checksum(w)) == LowWord(Run(ONE, w)) ^ 1
  {
    WordsXor(Run(ONE, w), ONE);
    assert HighWord(ONE) == 0 && LowWord(ONE) == 1;
  }

  /** Clearing the sign bit and adding its weight back turns an int32 into its unsigned value. */
  lemma SignRepair(w: Int32)
    ensures Signed(w) >= 0 ==> Signed(w) == w as int
    ensures Signed(w) < 0 ==> Signed(w ^ 0x8000_0000) + 0x8000_0000 == w as int
  {
  }

  lemma FinalNumber(data: Word, c0: Int32, c1: Int32, checksum: int)
    requires c0 == HighWord(Run(ONE, data)) && c1 == LowWord(Run(ONE, data))
    requires checksum == c0 as int * 0x4000_0000 * 4 + (c1 ^ 1) as int
    ensures checksum == Number(Checksum(data))
  {
    WordsOfChecksum(data);
    WordsNumber(Checksum(data));
  }

  /** The digits, most significant first, that checksumToArray reads off. */
  function Digits(n: nat, k: nat): (w: Word)
    ensures |w| == k
  {
    if k == 0 then [] else Digits(n / 32, k - 1) + [(n % 32) as Symbol]
  }

  lemma {:induction false} DigitsOfNumber(w: Word)
    ensures Digits(Number(w), |w|) == w
  {
    if w != [] {
      var n := |w| - 1;
      DigitsOfNumber(w[..n]);
      assert Number(w) / 32 == Number(w[..n]) && Number(w) % 32 == w[n] as int;
      assert w == w[..n] + [w[n]];
    }
  }

  lemma {:induction false} NumberOfZeros(n: nat)
    ensures Number(Zeros(n)) == 0
  {
    if n > 0 {
      assert Zeros(n)[..n - 1] == Zeros(n - 1);
      NumberOfZeros(n - 1);
    }
  }

  lemma NumberZero(w: Word)
    ensures Number(w) == 0 <==> w == Zeros(|w|)
  {
    DigitsOfNumber(w);
    DigitsOfNumber(Zeros(|w|));
    NumberOfZeros(|w|);
  }

  lemma NumberBound(r: Register)
    ensures Number(r) < 0x100_0000_0000
  {
    NumberOfRegister(r);
  }

  /** The inner loop: adds the generators selected by the symbol shifted out. */
  method AddTaps(C: Int32, high: Int32, low: Int32, ghost top: Symbol, ghost r: Register) returns (c0: Int32, c1: Int32)
    requires C == top as Int32 && high == HighWord(r) && low == LowWord(r)
    ensures c0 == HighWord(Xor(r, Taps(top, 5))) && c1 == LowWord(Xor(r, Taps(top, 5)))
  {
    c0, c1 := high, low;
    XorZero(r);
    for i := 0 to |GENERATOR1|
      invariant c0 == HighWord(Xor(r, Taps(top, i))) && c1 == LowWord(Xor(r, Taps(top, i)))
    {
      BitOfWord(top, i);
      if C & Flag(i) != 0 {
        TapWords(r, top, i);
        c0 := c0 ^ GENERATOR1[i];
        c1 := c1 ^ GENERATOR2[i];
      }
    }
  }

  /** One round of the outer loop on the words of register r. */
  method AbsorbSymbol(high: Int32, low: Int32, d: Symbol, ghost r: Register) returns (c0: Int32, c1: Int32)
    requires high == HighWord(r) && low == LowWord(r)
    ensures c0 == HighWord(Step(r, d)) && c1 == LowWord(Step(r, d))
  {
    ShiftWords(r, d);
    c0, c1 := high, low;
    var C := c0 >> 3;
    c0 := c0 & 0x07;
    c0 := c0 << 5;
    c0 := c0 | (c1 >> 27);
    c1 := c1 & 0x07ffffff;
    c1 := c1 << 5;
    c1 := c1 ^ (d as Int32);
    c0, c1 := AddTaps(C, c0, c1, r[0], r[1..] + [d]);
  }

  /** Negative numbers become large positive ones. */
  method Unsigned(word: Int32) returns (n: int)
    ensures n == word as int
  {
    SignRepair(word);
    n := Signed(word);
    if n < 0 {
      n := Signed(word ^ (1 << 31)) + 0x4000_0000 * 2;
    }
  }

  lemma NumberOfChecksum(data: Word)
    ensures Number(Checksum(data)) < 0x100_0000_0000
    ensures Number(Checksum(data)) == 0 <==> Checksum(data) == Zeros(8)
  {
    NumberBound(Checksum(data));
    NumberZero(Checksum(data));
  }

  lemma WordsOfOne()
    ensures HighWord(ONE) == 0 && LowWord(ONE) == 1
  {
  }

  lemma RunPrefix(data: Word, j: nat)
    requires j < |data|
    ensures Run(ONE, data[..j + 1]) == Step(Run(ONE, data[..j]), data[j])
  {
    assert data[..j + 1][..j] == data[..j];
  }

  /** The outer loop: the words of the register after all data. */
  method AbsorbAll(data: Word) returns (c0: Int32, c1: Int32)
    ensures c0 == HighWord(Run(ONE, data)) && c1 == LowWord(Run(ONE, data))
  {
    // 8 bits + 32 bits
    c0, c1 := 0, 1;
    WordsOfOne();
    for j := 0 to |data|
      invariant c0 == HighWord(Run(ONE, data[..j])) && c1 == LowWord(Run(ONE, data[..j]))
    {
      c0, c1 := AbsorbSymbol(c0, c1, data[j], Run(ONE, data[..j]));
      RunPrefix(data, j);
    }
    assert data[..|data|] == data;
  }

  /** The address code's checksum is the specified one, as a number below 2^40. */
  method Polymod(data: Word) returns (checksum: int)
    ensures checksum == Number(Checksum(data))
    ensures 0 <= checksum < 0x100_0000_0000
    ensures checksum == 0 <==> Checksum(data) == Zeros(8)
  {
    var c0, c1 := AbsorbAll(data);
    var low := Unsigned(c1 ^ 1);
    checksum := c0 as int * 0x4000_0000 * 4 + low;
    FinalNumber(data, c0, c1, checksum);
    NumberOfChecksum(data);
  }

  lemma FloorOfQuotient(x: real)
    requires x >= 0.0
    ensures (x / 32.0).Floor == x.Floor / 32
  {
    var q := x.Floor / 32;
    assert 32 * q <= x.Floor < 32 * q + 32;
    assert (32 * q) as real <= x < (32 * q + 32) as real;
  }

  function Reverse(w: Word): (r: Word)
    ensures |r| == |w|
  {
    if w == [] then [] else Reverse(w[1..]) + [w[0]]
  }

  lemma {:induction false} ReverseSnoc(w: Word, d: Symbol)
    ensures Reverse(w + [d]) == [d] + Reverse(w)
  {
    if w != [] {
      assert (w + [d])[1..] == w[1..] + [d];
      ReverseSnoc(w[1..], d);
    }
  }

  lemma {:induction false} DigitsSplit(n: nat, m: nat, k: nat)
    requires m == Shifted(n, k)
    ensures Digits(n, k + 1) == [(m % 32) as Symbol] + Digits(n, k)
  {
    if k > 0 {
      DigitsSplit(n / 32, m, k - 1);
      assert Digits(n, k + 1) == Digits(n / 32, k) + [(n % 32) as Symbol];
    }
  }

  function Shifted(n: nat, k: nat): nat {
    if k == 0 then n else Shifted(n / 32, k - 1)
  }

  lemma {:induction false} ShiftedNext(n: nat, k: nat)
    ensures Shifted(n, k) / 32 == Shifted(n, k + 1)
  {
    if k > 0 {
      ShiftedNext(n / 32, k - 1);
    }
  }

  /** The division is done on a JavaScript number, so the quotient keeps a fraction that the
      next mask truncates; a 40-bit integer and five times eight fraction bits are exact. */
  method ChecksumToArray(checksum: nat) returns (result: Word)
    ensures result == Digits(checksum, 8)
  {
    var rest := checksum as real;
    result := [];
    for i := 0 to 8
      invariant rest >= 0.0 && rest.Floor == Shifted(checksum, i)
      invariant Reverse(result) == Digits(checksum, i)
    {
      ReverseSnoc(result, (rest.Floor % 32) as Symbol);
      DigitsSplit(checksum, rest.Floor, i);
      ShiftedNext(checksum, i);
      FloorOfQuotient(rest);
      result := result + [(rest.Floor % 32) as Symbol];
      rest := rest / 32.0;
    }
    result := Reverse(result);
  }
}
