/** Regrouping of bit strings: the address code turns bytes into 5-bit symbols and back with one
    loop over an int32 accumulator that is never masked, so that it overflows on any real
    input.  The specification speaks about bit strings only; where the pending bits do not fit
    the accumulator, the code departs from it. */
module ConvertBits {
  import opened Wrappers
  import opened Sequences

  type Bits = seq<bool>

  // ----- bit strings

  /** The k low bits of an integer in two's complement, most significant first. */
  function LowBits(n: int, k: nat): (b: Bits)
    ensures |b| == k
    decreases k
  {
    if k == 0 then [] else LowBits(n / 2, k - 1) + [n % 2 == 1]
  }

  function Value(b: Bits): nat {
    if b == [] then 0 else 2 * Value(b[..|b| - 1]) + if b[|b| - 1] then 1 else 0
  }

  function Power(k: nat): (p: nat)
    ensures p > 0
  {
    if k == 0 then 1 else 2 * Power(k - 1)
  }

  /** The bits of a sequence of numbers of `width` bits each. */
  function AllBits(data: seq<int>, width: nat): Bits {
    if data == [] then [] else LowBits(data[0], width) + AllBits(data[1..], width)
  }

  function NoBits(n: nat): (b: Bits)
    ensures |b| == n
  {
    seq(n, i => false)
  }

  predicate InRange(data: seq<int>, width: nat) {
    forall i :: 0 <= i < |data| ==> 0 <= data[i] < Power(width)
  }

  /** The numbers spelled by the full groups of `width` bits; a shorter rest is dropped. */
  function Regroup(b: Bits, width: nat): seq<int>
    requires width > 0
  {
    if |b| < width then [] else [Value(b[..width])] + Regroup(b[width..], width)
  }

  /** The bits left over by Regroup. */
  function Rest(b: Bits, width: nat): (r: Bits)
    requires width > 0
    ensures |r| < width
  {
    if |b| < width then b else Rest(b[width..], width)
  }

  // ----- the conversion

  datatype Problem = BadValue | NeedsPadding

  /** JavaScript's conversion of a number to a signed 32-bit integer. */
  function ToInt32(n: int): int {
    var m := n % 0x1_0000_0000;
    if m < 0x8000_0000 then m else m - 0x1_0000_0000
  }

  predicate Accepted(value: int, from: nat) {
    !(value < 0 || ToInt32(value) / Power(from) != 0)
  }

  function Convert(data: seq<int>, from: nat, to: nat, strict: bool): Result<seq<int>, Problem>
    requires from > 0 && to > 0
  {
    var b := AllBits(data, from);
    var rest := Rest(b, to);
    if exists i :: 0 <= i < |data| && !Accepted(data[i], from) then
      Failure(BadValue)
    else if strict then
      if |rest| >= from || true in rest then Failure(NeedsPadding) else Success(Regroup(b, to))
    else if rest == [] then
      Success(Regroup(b, to))
    else
      Success(Regroup(b + NoBits(to - |rest|), to))
  }

  // ----- arithmetic of bit strings

  lemma ModuloUnique(n: int, m: int, q: int, r: int)
    requires m > 0 && 0 <= r < m && n == q * m + r
    ensures n % m == r && n / m == q
  {
    var d := n / m - q;
    assert d * m == r - n % m;
    assert d >= 1 ==> d * m >= m;
    assert d <= -1 ==> d * m <= -m;
  }

  lemma HalfModulo(n: int, p: int)
    requires p > 0
    ensures n % (2 * p) == 2 * ((n / 2) % p) + n % 2
    ensures n / (2 * p) == n / 2 / p
  {
    var q, r := (n / 2) / p, (n / 2) % p;
    assert n == 2 * (q * p + r) + n % 2;
    assert n == q * (2 * p) + (2 * r + n % 2);
    ModuloUnique(n, 2 * p, q, 2 * r + n % 2);
  }

  lemma {:induction false} ValueOfLowBits(n: int, k: nat)
    ensures Value(LowBits(n, k)) == n % Power(k)
    decreases k
  {
    if k > 0 {
      ValueOfLowBits(n / 2, k - 1);
      assert LowBits(n, k)[..k - 1] == LowBits(n / 2, k - 1);
      HalfModulo(n, Power(k - 1));
    }
  }

  lemma {:induction false} LowBitsOfValue(b: Bits)
    ensures LowBits(Value(b), |b|) == b && Value(b) < Power(|b|)
  {
    if b != [] {
      LowBitsOfValue(b[..|b| - 1]);
      assert b == b[..|b| - 1] + [b[|b| - 1]];
    }
  }

  lemma {:induction false} LowBitsSplit(n: int, high: nat, low: nat)
    ensures LowBits(n, high + low) == LowBits(n / Power(low), high) + LowBits(n, low)
    decreases low
  {
    if low > 0 {
      LowBitsSplit(n / 2, high, low - 1);
      HalfModulo(n, Power(low - 1));
      assert high + low - 1 == high + (low - 1);
    }
  }

  /** Multiples of a high power of two do not touch the low bits. */
  lemma {:induction false} LowBitsModulo(n: int, q: int, j: nat, k: nat)
    requires k <= j
    ensures LowBits(n + q * Power(j), k) == LowBits(n, k)
    decreases k
  {
    if k > 0 {
      var p := Power(j - 1);
      assert q * Power(j) == 2 * (q * p);
      LowBitsModulo(n / 2, q, j - 1, k - 1);
    }
  }

  lemma LowBitsOfRemainder(n: int, k: nat)
    ensures LowBits(n % Power(k), k) == LowBits(n, k)
  {
    var q, r := n / Power(k), n % Power(k);
    assert n == r + q * Power(k);
    LowBitsModulo(r, q, k, k);
  }

  lemma Power32()
    ensures Power(32) == 0x1_0000_0000
  {
    assert Power(8) == 0x100;
    assert Power(16) == 0x10000;
    assert Power(24) == 0x1000000;
  }

  lemma WrapQuotient(n: int) returns (q: int)
    ensures ToInt32(n) == n + q * Power(32)
  {
    Power32();
    q := (ToInt32(n) - n) / 0x1_0000_0000;
  }

  /** Wrapping to 32 bits does not touch the low bits. */
  lemma LowBitsOfInt32(n: int, k: nat)
    requires k <= 32
    ensures LowBits(ToInt32(n), k) == LowBits(n, k)
  {
    var q := WrapQuotient(n);
    LowBitsModulo(n, q, 32, k);
  }

  /** Shifting a number of `from` bits into the accumulator appends its bits. */
  lemma LowBitsShiftIn(acc: int, v: int, k: nat, from: nat)
    requires k + from <= 32 && 0 <= v < Power(from)
    ensures LowBits(ToInt32(acc * Power(from)) + v, k + from) == LowBits(acc, k) + LowBits(v, from)
  {
    var n := acc * Power(from);
    var q := WrapQuotient(n);
    assert ToInt32(n) + v == n + v + q * Power(32);
    LowBitsModulo(n + v, q, 32, k + from);
    LowBitsAppend(acc, v, k, from);
  }

  lemma LowBitsAppend(acc: int, v: int, k: nat, from: nat)
    requires 0 <= v < Power(from)
    ensures LowBits(acc * Power(from) + v, k + from) == LowBits(acc, k) + LowBits(v, from)
  {
    LowBitsSplit(acc * Power(from) + v, k, from);
    ModuloUnique(acc * Power(from) + v, Power(from), acc, v);
    LowBitsModulo(v, acc, from, from);
  }

  /** What the mask and the shift cut out of the accumulator. */
  lemma LowBitsCutOut(acc: int, high: nat, low: nat)
    ensures LowBits(acc, high + low) == LowBits(acc / Power(low) % Power(high), high) + LowBits(acc, low)
  {
    LowBitsSplit(acc, high, low);
    LowBitsOfRemainder(acc / Power(low), high);
  }

  // ----- sequences of groups

  lemma {:induction false} AllBitsSnoc(data: seq<int>, v: int, width: nat)
    ensures AllBits(data + [v], width) == AllBits(data, width) + LowBits(v, width)
  {
    if data == [] {
      assert AllBits([v], width) == LowBits(v, width) + AllBits([], width);
    } else {
      assert (data + [v])[1..] == data[1..] + [v];
      AllBitsSnoc(data[1..], v, width);
    }
  }

  lemma AllBitsCons(v: int, data: seq<int>, width: nat)
    ensures AllBits([v] + data, width) == LowBits(v, width) + AllBits(data, width)
  {
    assert ([v] + data)[1..] == data;
  }

  lemma {:induction false} AllBitsLength(data: seq<int>, width: nat)
    ensures |AllBits(data, width)| == |data| * width
  {
    if data != [] {
      AllBitsLength(data[1..], width);
    }
  }

  lemma {:induction false} AllBitsConcat(one: seq<int>, other: seq<int>, width: nat)
    ensures AllBits(one + other, width) == AllBits(one, width) + AllBits(other, width)
  {
    if one == [] {
      assert one + other == other;
    } else {
      assert (one + other)[1..] == one[1..] + other;
      AllBitsConcat(one[1..], other, width);
    }
  }

  /** The number whose digits, of `width` bits each, are given. */
  function Number(data: seq<int>, width: nat): int {
    if data == [] then 0 else Number(data[..|data| - 1], width) * Power(width) + data[|data| - 1]
  }

  lemma BitsOfSnoc(data: seq<int>, v: int, width: nat)
    requires AllBits(data, width) == LowBits(Number(data, width), |data| * width) && 0 <= v < Power(width)
    ensures AllBits(data + [v], width) == LowBits(Number(data + [v], width), |data + [v]| * width)
  {
    AllBitsSnoc(data, v, width);
    assert (data + [v])[..|data|] == data;
    LengthSnoc(|data|, width);
    LowBitsAppend(Number(data, width), v, |data| * width, width);
  }

  lemma LengthSnoc(n: nat, width: nat)
    ensures (n + 1) * width == n * width + width && n * width >= 0
  {
  }

  /** The bits of a sequence of digits are those of the number they spell. */
  lemma {:induction false} AllBitsOfNumber(data: seq<int>, width: nat)
    requires InRange(data, width)
    ensures AllBits(data, width) == LowBits(Number(data, width), |data| * width)
  {
    if data != [] {
      var n := |data| - 1;
      AllBitsOfNumber(data[..n], width);
      BitsOfSnoc(data[..n], data[n], width);
      assert data == data[..n] + [data[n]];
    }
  }

  /** Regroup is the only way to spell all full groups of a bit string. */
  lemma {:induction false} RegroupUnique(data: seq<int>, rest: Bits, width: nat)
    requires width > 0 && InRange(data, width) && |rest| < width
    ensures Regroup(AllBits(data, width) + rest, width) == data
    ensures Rest(AllBits(data, width) + rest, width) == rest
  {
    var b := AllBits(data, width) + rest;
    if data == [] {
      assert b == rest;
    } else {
      assert b[..width] == LowBits(data[0], width);
      assert b[width..] == AllBits(data[1..], width) + rest;
      RegroupUnique(data[1..], rest, width);
      ValueOfLowBits(data[0], width);
      ModuloUnique(data[0], Power(width), 0, data[0]);
    }
  }

  lemma {:induction false} RegroupSpells(b: Bits, width: nat)
    requires width > 0
    ensures AllBits(Regroup(b, width), width) + Rest(b, width) == b
  {
    if |b| >= width {
      RegroupSpells(b[width..], width);
      LowBitsOfValue(b[..width]);
      AllBitsCons(Value(b[..width]), Regroup(b[width..], width), width);
      JoinParts(b, width, AllBits(Regroup(b[width..], width), width), Rest(b[width..], width));
    }
  }

  lemma JoinParts(b: Bits, width: nat, middle: Bits, rest: Bits)
    requires width <= |b| && middle + rest == b[width..]
    ensures b[..width] + middle + rest == b
  {
    assert b[..width] + middle + rest == b[..width] + (middle + rest);
  }

  lemma {:induction false} RegroupInRange(b: Bits, width: nat)
    requires width > 0
    ensures InRange(Regroup(b, width), width)
  {
    if |b| >= width {
      LowBitsOfValue(b[..width]);
      RegroupInRange(b[width..], width);
    }
  }

  lemma {:induction false} LowBitsOfZero(k: nat)
    ensures LowBits(0, k) == NoBits(k)
  {
    if k > 0 {
      LowBitsOfZero(k - 1);
    }
  }

  lemma {:induction false} ValueZero(b: Bits)
    ensures Value(b) == 0 <==> true !in b
  {
    if b != [] {
      var n := |b| - 1;
      ValueZero(b[..n]);
      assert b == b[..n] + [b[n]];
    }
  }

  // ----- regrouping piece by piece

  lemma {:induction false} RegroupConcat(b: Bits, more: Bits, width: nat)
    requires width > 0
    ensures Regroup(b + more, width) == Regroup(b, width) + Regroup(Rest(b, width) + more, width)
    ensures Rest(b + more, width) == Rest(Rest(b, width) + more, width)
  {
    if |b| >= width {
      assert (b + more)[..width] == b[..width] && (b + more)[width..] == b[width..] + more;
      RegroupConcat(b[width..], more, width);
    }
  }

  lemma {:induction false} RestIsTail(b: Bits, width: nat)
    requires width > 0
    ensures |Rest(b, width)| <= |b| && Rest(b, width) == b[|b| - |Rest(b, width)|..]
  {
    if |b| >= width {
      RestIsTail(b[width..], width);
    }
  }

  lemma {:induction false} SameLengths(b: Bits, c: Bits, width: nat)
    requires width > 0 && |b| == |c|
    ensures |Regroup(b, width)| == |Regroup(c, width)| && |Rest(b, width)| == |Rest(c, width)|
  {
    if |b| >= width {
      SameLengths(b[width..], c[width..], width);
    }
  }

  /** What zeros behind the rest make of it. */
  lemma RegroupPadded(b: Bits, width: nat)
    requires width > 0 && Rest(b, width) != []
    ensures var padded := Rest(b, width) + NoBits(width - |Rest(b, width)|);
            Regroup(b + NoBits(width - |Rest(b, width)|), width) == Regroup(b, width) + [Value(padded)]
  {
    var zeros := NoBits(width - |Rest(b, width)|);
    var padded := Rest(b, width) + zeros;
    RegroupConcat(b, zeros, width);
    assert padded[..width] == padded && padded[width..] == [];
    assert Regroup(padded, width) == [Value(padded)] + [];
  }

  // ----- the code, on bit strings

  /** What an int32 keeps of a bit string: the low 32 bits; above them the sign is read back. */
  function Kept(b: Bits): (r: Bits)
    ensures |r| == |b|
  {
    if |b| <= 32 then b else seq(|b| - 32, i => b[|b| - 32]) + b[|b| - 32..]
  }

  /** The groups emitted for the data, and the bits then pending in the accumulator. */
  function Pour(data: seq<int>, from: nat, to: nat): (r: (seq<int>, Bits))
    requires to > 0
    ensures |r.1| < to
  {
    if data == [] then ([], [])
    else
      var (groups, rest) := Pour(data[..|data| - 1], from, to);
      var b := Kept(rest + LowBits(data[|data| - 1], from));
      (groups + Regroup(b, to), Rest(b, to))
  }

  function Finished(groups: seq<int>, rest: Bits, from: nat, to: nat, strict: bool): Result<seq<int>, Problem>
    requires |rest| < to
  {
    if strict then if |rest| >= from || true in rest then Failure(NeedsPadding) else Success(groups)
    else if rest == [] then Success(groups)
    else Success(groups + [Value(rest + NoBits(to - |rest|))])
  }

  predicate AllAccepted(data: seq<int>, from: nat) {
    forall i :: 0 <= i < |data| ==> Accepted(data[i], from)
  }

  function Converted(data: seq<int>, from: nat, to: nat, strict: bool): Result<seq<int>, Problem>
    requires to > 0
  {
    if AllAccepted(data, from) then Finished(Pour(data, from, to).0, Pour(data, from, to).1, from, to, strict)
    else Failure(BadValue)
  }

  // ----- where the code meets the specification

  /** No pending bits are ever lost. */
  predicate Fits(data: seq<int>, from: nat, to: nat)
    requires to > 0
  {
    data != [] ==>
      var n := |data| - 1;
      var b := Pour(data[..n], from, to).1 + LowBits(data[n], from);
      Fits(data[..n], from, to) && Kept(b) == b
  }

  lemma KeptTail(b: Bits, k: nat)
    requires k <= 32 && k <= |b|
    ensures Kept(b)[|b| - k..] == b[|b| - k..]
  {
    if |b| > 32 {
      assert Kept(b)[|b| - 32..] == b[|b| - 32..];
      assert Kept(b)[|b| - k..] == Kept(b)[|b| - 32..][32 - k..];
      assert b[|b| - k..] == b[|b| - 32..][32 - k..];
    }
  }

  lemma KeptRest(b: Bits, width: nat)
    requires 0 < width <= 31
    ensures Rest(Kept(b), width) == Rest(b, width) && |Regroup(Kept(b), width)| == |Regroup(b, width)|
  {
    RestIsTail(b, width);
    RestIsTail(Kept(b), width);
    SameLengths(b, Kept(b), width);
    KeptTail(b, |Rest(b, width)|);
  }

  /** Lost bits show in the groups. */
  lemma KeptGroups(b: Bits, width: nat)
    requires 0 < width <= 31
    ensures Regroup(Kept(b), width) == Regroup(b, width) <==> Kept(b) == b
  {
    KeptRest(b, width);
    RegroupSpells(b, width);
    RegroupSpells(Kept(b), width);
  }

  /** Groups and rest have the lengths of those of a bit string, and are them if it fits; the
      groups are no others unless it does. */
  predicate Mirrors(groups: seq<int>, rest: Bits, b: Bits, to: nat, fits: bool)
    requires to > 0
  {
    && |groups| == |Regroup(b, to)| && |rest| == |Rest(b, to)|
    && (groups == Regroup(b, to) <==> fits)
    && (fits ==> rest == Rest(b, to))
  }

  lemma PourSnoc(data: seq<int>, v: int, from: nat, to: nat)
    requires to > 0
    ensures var b := Pour(data, from, to).1 + LowBits(v, from);
            && Pour(data + [v], from, to) == (Pour(data, from, to).0 + Regroup(Kept(b), to), Rest(Kept(b), to))
            && (Fits(data + [v], from, to) <==> Fits(data, from, to) && Kept(b) == b)
  {
    assert (data + [v])[..|data|] == data;
  }

  lemma MirrorsSnoc(data: seq<int>, v: int, from: nat, to: nat)
    requires 0 < to <= 31
    requires Mirrors(Pour(data, from, to).0, Pour(data, from, to).1, AllBits(data, from), to, Fits(data, from, to))
    ensures Mirrors(Pour(data + [v], from, to).0, Pour(data + [v], from, to).1, AllBits(data + [v], from), to, Fits(data + [v], from, to))
  {
    AllBitsSnoc(data, v, from);
    PourSnoc(data, v, from, to);
    MirrorsNext(Pour(data, from, to).0, Pour(data, from, to).1, AllBits(data, from), LowBits(v, from), to, Fits(data, from, to));
  }

  /** The groups emitted are those of the whole bit string exactly if no bits are lost. */
  lemma {:induction false} PourExactly(data: seq<int>, from: nat, to: nat)
    requires 0 < to <= 31
    ensures Mirrors(Pour(data, from, to).0, Pour(data, from, to).1, AllBits(data, from), to, Fits(data, from, to))
  {
    if data != [] {
      PourExactly(data[..|data| - 1], from, to);
      MirrorsLast(data, from, to);
    }
  }

  lemma MirrorsLast(data: seq<int>, from: nat, to: nat)
    requires 0 < to <= 31 && data != []
    requires var before := data[..|data| - 1];
             Mirrors(Pour(before, from, to).0, Pour(before, from, to).1, AllBits(before, from), to, Fits(before, from, to))
    ensures Mirrors(Pour(data, from, to).0, Pour(data, from, to).1, AllBits(data, from), to, Fits(data, from, to))
  {
    var n := |data| - 1;
    MirrorsSnoc(data[..n], data[n], from, to);
    TakeNext(data, n);
    assert data[..n + 1] == data;
  }

  lemma MirrorsNext(groups: seq<int>, rest: Bits, before: Bits, more: Bits, to: nat, fits: bool)
    requires 0 < to <= 31 && Mirrors(groups, rest, before, to, fits)
    ensures Mirrors(groups + Regroup(Kept(rest + more), to), Rest(Kept(rest + more), to), before + more, to,
                    fits && Kept(rest + more) == rest + more)
  {
    RegroupConcat(before, more, to);
    KeptRest(rest + more, to);
    SameLengths(rest + more, Rest(before, to) + more, to);
    SamePrefix(groups, Regroup(before, to), Regroup(Kept(rest + more), to), Regroup(Rest(before, to) + more, to));
    KeptGroups(rest + more, to);
  }

  lemma {:induction false} NarrowFits(data: seq<int>, from: nat, to: nat)
    requires 0 < to && from + to <= 32
    ensures Fits(data, from, to)
  {
    if data != [] {
      NarrowFits(data[..|data| - 1], from, to);
    }
  }

  lemma ConvertParts(data: seq<int>, from: nat, to: nat, strict: bool)
    requires 0 < from && 0 < to && AllAccepted(data, from)
    ensures Convert(data, from, to, strict)
         == Finished(Regroup(AllBits(data, from), to), Rest(AllBits(data, from), to), from, to, strict)
  {
    if Rest(AllBits(data, from), to) != [] {
      RegroupPadded(AllBits(data, from), to);
    }
  }

  lemma FinishedDiffers(one: seq<int>, other: seq<int>, r: Bits, s: Bits, from: nat, to: nat)
    requires |one| == |other| && |r| == |s| < to && one != other
    ensures Finished(one, r, from, to, false) != Finished(other, s, from, to, false)
  {
    if r != [] {
      SamePrefix(one, other, [Value(r + NoBits(to - |r|))], [Value(s + NoBits(to - |s|))]);
    }
  }

  /** The code regroups the bit string if no pending bits are lost, which they never are when
      the widths add up to 32 at most; and without `strict` only then. */
  lemma ConvertedExactly(data: seq<int>, from: nat, to: nat, strict: bool)
    requires 0 < from <= 31 && 0 < to <= 31
    ensures Fits(data, from, to) || !AllAccepted(data, from) ==> Converted(data, from, to, strict) == Convert(data, from, to, strict)
    ensures Converted(data, from, to, false) == Convert(data, from, to, false) ==> Fits(data, from, to) || !AllAccepted(data, from)
    ensures from + to <= 32 ==> Fits(data, from, to)
  {
    if from + to <= 32 {
      NarrowFits(data, from, to);
    }
    if AllAccepted(data, from) {
      PourExactly(data, from, to);
      ConvertParts(data, from, to, strict);
      ConvertParts(data, from, to, false);
      var b := AllBits(data, from);
      if !Fits(data, from, to) {
        FinishedDiffers(Pour(data, from, to).0, Regroup(b, to), Pour(data, from, to).1, Rest(b, to), from, to);
      }
    }
  }

  lemma RestOfOne(b: Bits, width: nat)
    requires 0 < width <= |b| < 2 * width
    ensures Rest(b, width) == b[width..]
  {
  }

  lemma PourOfZero()
    ensures Pour([0], 31, 30).1 == [false]
  {
    LowBitsOfZero(31);
    PourSnoc([], 0, 31, 30);
    assert [] + [0] == [0] && [] + NoBits(31) == NoBits(31);
    RestOfOne(NoBits(31), 30);
  }

  lemma PourOfTwo()
    ensures Pour([0] + [2], 31, 30).1 == [true, false]
  {
    PourOfZero();
    LowBitsOfTwo();
    PourSnoc([0], 2, 31, 30);
    RestOfOne([false] + (NoBits(29) + [true, false]), 30);
  }

  /** An instance of loss: regrouping 31 into 30 bits, the third value pushes a 1 out. */
  lemma BitsLost()
    ensures !Fits([0] + [2] + [0], 31, 30)
  {
    PourOfTwo();
    LowBitsOfZero(31);
    PourSnoc([0] + [2], 0, 31, 30);
    ThirdLost([true, false] + NoBits(31));
  }

  lemma ThirdLost(b: Bits)
    requires |b| == 33 && b[0] != b[1]
    ensures Kept(b) != b
  {
    assert Kept(b)[0] == b[1];
  }

  lemma LowBitsOfTwo()
    ensures LowBits(2, 31) == NoBits(29) + [true, false]
  {
    assert LowBits(2, 31) == LowBits(1, 30) + [false];
    assert LowBits(1, 30) == LowBits(0, 29) + [true];
    LowBitsOfZero(29);
  }

  // ----- the bitwise or of two int32s

  function OrBits(a: Bits, b: Bits): (r: Bits)
    requires |a| == |b|
    ensures |r| == |a|
  {
    seq(|a|, i requires 0 <= i < |a| => a[i] || b[i])
  }

  function Or(a: int, b: int): int {
    ToInt32(Value(OrBits(LowBits(a, 32), LowBits(b, 32))))
  }

  lemma OrJoins(high: Bits, low: Bits)
    ensures OrBits(high + NoBits(|low|), NoBits(|high|) + low) == high + low
  {
  }

  lemma ShiftedBits(acc: int, from: nat)
    requires from <= 31
    ensures LowBits(ToInt32(acc * Power(from)), 32) == LowBits(acc, 32 - from) + NoBits(from)
  {
    LowBitsOfInt32(acc * Power(from), 32);
    LowBitsAppend(acc, 0, 32 - from, from);
    LowBitsOfZero(from);
  }

  lemma SmallBits(v: int, from: nat)
    requires from <= 31 && 0 <= v < Power(from)
    ensures LowBits(v, 32) == NoBits(32 - from) + LowBits(v, from)
  {
    assert 0 * Power(from) + v == v;
    LowBitsAppend(0, v, 32 - from, from);
    LowBitsOfZero(32 - from);
  }

  lemma Int32OfBits(b: Bits)
    requires |b| == 32
    ensures LowBits(ToInt32(Value(b)), 32) == b
  {
    LowBitsOfInt32(Value(b), 32);
    LowBitsOfValue(b);
  }

  /** Where the shift has left zeros for the value, its bits come behind the others. */
  lemma OrAppends(acc: int, v: int, from: nat)
    requires from <= 31 && 0 <= v < Power(from)
    ensures LowBits(Or(ToInt32(acc * Power(from)), v), 32) == LowBits(acc, 32 - from) + LowBits(v, from)
  {
    ShiftedBits(acc, from);
    SmallBits(v, from);
    OrJoins(LowBits(acc, 32 - from), LowBits(v, from));
    Int32OfBits(LowBits(acc, 32 - from) + LowBits(v, from));
  }

  lemma SignBits(x: int, k: nat)
    requires -0x8000_0000 <= x < 0x8000_0000
    ensures LowBits(x, k + 32) == seq(k, i => x < 0) + LowBits(x, 32)
  {
    LowBitsSplit(x, k, 32);
    Power32();
    if x < 0 {
      ModuloUnique(x, 0x1_0000_0000, -1, x + 0x1_0000_0000);
      LowBitsOfMinusOne(k);
    } else {
      ModuloUnique(x, 0x1_0000_0000, 0, x);
      LowBitsOfZero(k);
    }
  }

  lemma {:induction false} LowBitsOfMinusOne(k: nat)
    ensures LowBits(-1, k) == seq(k, i => true)
  {
    if k > 0 {
      LowBitsOfMinusOne(k - 1);
    }
  }

  lemma SignBit(x: int)
    requires -0x8000_0000 <= x < 0x8000_0000
    ensures LowBits(x, 32)[0] == (x < 0)
  {
    LowBitsSplit(x, 1, 31);
    assert Power(31) == 0x8000_0000 by {
      Power32();
    }
    if x < 0 {
      ModuloUnique(x, 0x8000_0000, -1, x + 0x8000_0000);
    } else {
      ModuloUnique(x, 0x8000_0000, 0, x);
    }
    assert LowBits(x / 0x8000_0000, 1) == LowBits(x / 0x8000_0000 / 2, 0) + [x / 0x8000_0000 % 2 == 1];
  }

  lemma LowBitsTail(n: int, k: nat, low: nat)
    ensures LowBits(n, k + low)[k..] == LowBits(n, low)
  {
    LowBitsSplit(n, k, low);
  }

  lemma TailOfConcat(a: Bits, b: Bits, k: nat)
    requires k <= |a|
    ensures (a + b)[k..] == a[k..] + b
  {
  }

  lemma FewBits(x: int, acc: int, low: Bits, bits: nat)
    requires bits + |low| <= 32 && LowBits(x, 32) == LowBits(acc, 32 - |low|) + low
    ensures LowBits(x, bits + |low|) == LowBits(acc, bits) + low
  {
    var k := 32 - bits - |low|;
    LowBitsTail(x, k, bits + |low|);
    LowBitsTail(acc, k, bits);
    assert k + (bits + |low|) == 32 && k + bits == 32 - |low|;
    TailOfConcat(LowBits(acc, 32 - |low|), low, k);
  }

  lemma ManyBits(x: int, acc: int, low: Bits, bits: nat)
    requires bits + |low| > 32 && |low| <= 32 && LowBits(x, 32) == LowBits(acc, 32 - |low|) + low
    requires -0x8000_0000 <= x < 0x8000_0000
    ensures LowBits(x, bits + |low|) == Kept(LowBits(acc, bits) + low)
  {
    var k := bits + |low| - 32;
    SignBits(x, k);
    SignBit(x);
    LowBitsSplit(acc, k, 32 - |low|);
    assert k + (32 - |low|) == bits && k + 32 == bits + |low|;
    KeptLong(LowBits(acc, bits) + low, k, LowBits(x, 32));
  }

  lemma KeptLong(b: Bits, k: nat, tail: Bits)
    requires |b| == k + 32 && b[k..] == tail
    ensures Kept(b) == seq(k, i => tail[0]) + tail
  {
    assert b[k] == tail[0];
  }

  /** Reading any number of bits of an int32 gives what it keeps of the bits shifted in. */
  lemma OrKeeps(acc: int, v: int, bits: nat, from: nat)
    requires from <= 31 && 0 <= v < Power(from)
    ensures LowBits(Or(ToInt32(acc * Power(from)), v), bits + from) == Kept(LowBits(acc, bits) + LowBits(v, from))
  {
    OrAppends(acc, v, from);
    if bits + from <= 32 {
      FewBits(Or(ToInt32(acc * Power(from)), v), acc, LowBits(v, from), bits);
    } else {
      ManyBits(Or(ToInt32(acc * Power(from)), v), acc, LowBits(v, from), bits);
    }
  }

  // ----- the code itself

  /** The inner loop: moves every complete group out of the accumulator. */
  method Emit(accumulator: int, pending: nat, to: nat, groups: seq<int>) returns (bits: nat, result: seq<int>)
    requires 0 < to
    ensures bits < to && LowBits(accumulator, bits) == Rest(LowBits(accumulator, pending), to)
    ensures result == groups + Regroup(LowBits(accumulator, pending), to)
  {
    bits, result := pending, groups;
    while bits >= to
      invariant result + Regroup(LowBits(accumulator, bits), to) == groups + Regroup(LowBits(accumulator, pending), to)
      invariant Rest(LowBits(accumulator, bits), to) == Rest(LowBits(accumulator, pending), to)
    {
      bits := bits - to;
      var group := accumulator / Power(bits) % Power(to);
      CutOut(accumulator, bits, to);
      Associate(result, [group], Regroup(LowBits(accumulator, bits), to));
      result := result + [group];
    }
  }

  lemma CutOut(acc: int, bits: nat, to: nat)
    requires to > 0
    ensures Regroup(LowBits(acc, bits + to), to) == [acc / Power(bits) % Power(to)] + Regroup(LowBits(acc, bits), to)
    ensures Rest(LowBits(acc, bits + to), to) == Rest(LowBits(acc, bits), to)
  {
    var group := acc / Power(bits) % Power(to);
    LowBitsCutOut(acc, to, bits);
    ValueOfLowBits(group, to);
    ModuloUnique(group, Power(to), 0, group);
    var b := LowBits(acc, bits + to);
    assert to + bits == bits + to;
    assert b == LowBits(group, to) + LowBits(acc, bits);
    assert b[..to] == LowBits(group, to) && b[to..] == LowBits(acc, bits);
  }

  lemma AcceptedValue(value: int, from: nat)
    requires from <= 31 && Accepted(value, from)
    ensures 0 <= ToInt32(value) < Power(from) && LowBits(ToInt32(value), from) == LowBits(value, from)
  {
    ModuloUnique(ToInt32(value), Power(from), 0, ToInt32(value) % Power(from));
    LowBitsOfInt32(value, from);
  }

  /** Shifts a value into the accumulator. */
  method ShiftIn(acc: int, value: int, from: nat, ghost bits: nat) returns (accumulator: int)
    requires from <= 31 && Accepted(value, from)
    ensures LowBits(accumulator, bits + from) == Kept(LowBits(acc, bits) + LowBits(value, from))
  {
    AcceptedValue(value, from);
    OrKeeps(acc, ToInt32(value), bits, from);
    accumulator := Or(ToInt32(acc * Power(from)), ToInt32(value));
  }

  /** One round of the loop: an accepted value is shifted in, and what is complete emitted. */
  method AbsorbValue(value: int, from: nat, to: nat, groups: seq<int>, acc: int, pending: nat)
    returns (result: seq<int>, accumulator: int, bits: nat)
    requires 0 < from <= 31 && 0 < to <= 31 && Accepted(value, from)
    ensures var kept := Kept(LowBits(acc, pending) + LowBits(value, from));
            bits < to && LowBits(accumulator, bits) == Rest(kept, to) && result == groups + Regroup(kept, to)
  {
    accumulator := ShiftIn(acc, value, from, pending);
    bits, result := Emit(accumulator, pending + from, to, groups);
  }

  lemma AcceptedSnoc(data: seq<int>, v: int, from: nat)
    requires AllAccepted(data, from) && Accepted(v, from)
    ensures AllAccepted(data + [v], from)
  {
  }

  /** For widths of 1 to 31 bits the code does what is specified on bit strings, and regroups
      them where the pending bits fit. */
  method ConvertBits(data: seq<int>, from: nat, to: nat, strict: bool) returns (r: Result<seq<int>, Problem>)
    requires 0 < from <= 31 && 0 < to <= 31
    ensures r == Converted(data, from, to, strict)
    ensures Fits(data, from, to) ==> r == Convert(data, from, to, strict)
    ensures from + to <= 32 ==> r == Convert(data, from, to, strict)
  {
    ConvertedExactly(data, from, to, strict);
    var accumulator: int, bits: nat := 0, 0;
    var result := [];
    for i := 0 to |data|
      invariant AllAccepted(data[..i], from)
      invariant bits < to && (result, LowBits(accumulator, bits)) == Pour(data[..i], from, to)
    {
      var value := data[i];
      if value < 0 || ToInt32(value) / Power(from) != 0 {
        return Failure(BadValue);
      }
      AcceptedSnoc(data[..i], value, from);
      PourSnoc(data[..i], value, from, to);
      TakeNext(data, i);
      result, accumulator, bits := AbsorbValue(value, from, to, result, accumulator, bits);
    }
    assert data[..|data|] == data;
    r := Finish(from, to, strict, result, accumulator, bits);
  }

  /** The group made of the pending bits and zeros below them. */
  lemma PaddedGroup(acc: int, bits: nat, to: nat)
    requires bits <= to <= 32
    ensures var padded := ToInt32(acc * Power(to - bits)) % Power(to);
            && padded == Value(LowBits(acc, bits) + NoBits(to - bits))
            && (padded == 0 <==> true !in LowBits(acc, bits))
  {
    var shifted := ToInt32(acc * Power(to - bits));
    LowBitsShiftIn(acc, 0, bits, to - bits);
    LowBitsOfZero(to - bits);
    ValueOfLowBits(shifted, to);
    ValueZero(LowBits(shifted, to));
  }

  /** The code after the loop: pads, or checks that nothing had to be padded. */
  method Finish(from: nat, to: nat, strict: bool, result: seq<int>, accumulator: int, bits: nat)
    returns (r: Result<seq<int>, Problem>)
    requires 0 < from && bits < to <= 31
    ensures r == Finished(result, LowBits(accumulator, bits), from, to, strict)
  {
    PaddedGroup(accumulator, bits, to);
    var padded := ToInt32(accumulator * Power(to - bits)) % Power(to);
    if !strict {
      r := Success(if bits > 0 then result + [padded] else result);
    } else if bits >= from || padded != 0 {
      r := Failure(NeedsPadding);
    } else {
      r := Success(result);
    }
  }

  // ----- converting back and forth

  lemma {:induction false} PowerBound(k: nat)
    requires k <= 31
    ensures Power(k) <= 0x8000_0000
  {
    PowerGrows(k, 31);
    Power32();
  }

  lemma {:induction false} PowerGrows(j: nat, k: nat)
    requires j <= k
    ensures Power(j) <= Power(k)
    decreases k
  {
    if j < k {
      PowerGrows(j, k - 1);
    }
  }

  lemma InRangeAccepted(data: seq<int>, width: nat)
    requires width <= 31 && InRange(data, width)
    ensures forall i :: 0 <= i < |data| ==> Accepted(data[i], width)
  {
    PowerBound(width);
    forall i | 0 <= i < |data| ensures Accepted(data[i], width) {
      assert 0 <= data[i] < Power(width);
      ModuloUnique(data[i], Power(width), 0, data[i]);
    }
  }

  /** Padded regrouping into narrower groups never fails and spells the same bits, followed by
      fewer than one group of zeros. */
  lemma PaddedConversion(data: seq<int>, wide: nat, narrow: nat) returns (groups: seq<int>, padding: nat)
    requires 0 < narrow && 0 < wide <= 31 && InRange(data, wide)
    ensures Convert(data, wide, narrow, false) == Success(groups) && InRange(groups, narrow)
    ensures padding < narrow && AllBits(groups, narrow) == AllBits(data, wide) + NoBits(padding)
  {
    InRangeAccepted(data, wide);
    var b := AllBits(data, wide);
    var rest := Rest(b, narrow);
    RegroupSpells(b, narrow);
    padding := if rest == [] then 0 else narrow - |rest|;
    groups := Regroup(b + NoBits(padding), narrow);
    RegroupInRange(b + NoBits(padding), narrow);
    assert b + NoBits(0) == b;
    if rest == [] {
      assert AllBits(groups, narrow) == AllBits(groups, narrow) + [];
    } else {
      LastGroup(b, narrow);
    }
  }

  lemma LastGroup(b: Bits, width: nat)
    requires width > 0 && Rest(b, width) != []
    ensures var padded := b + NoBits(width - |Rest(b, width)|); AllBits(Regroup(padded, width), width) == padded
  {
    var rest := Rest(b, width);
    var last := rest + NoBits(width - |rest|);
    var groups := Regroup(b, width);
    RegroupSpells(b, width);
    RegroupInRange(b, width);
    LowBitsOfValue(last);
    AllBitsSnoc(groups, Value(last), width);
    RegroupUnique(groups + [Value(last)], [], width);
    Associate(AllBits(groups, width), rest, NoBits(width - |rest|));
    assert AllBits(groups + [Value(last)], width) + [] == AllBits(groups + [Value(last)], width);
  }

  /** Splitting into narrower groups and strictly joining them again is the identity. */
  lemma SplitThenJoin(data: seq<int>, wide: nat, narrow: nat)
    requires 0 < narrow <= wide <= 31 && InRange(data, wide)
    ensures Convert(data, wide, narrow, false).Success?
    ensures Convert(Convert(data, wide, narrow, false).value, narrow, wide, true) == Success(data)
  {
    var groups, padding := PaddedConversion(data, wide, narrow);
    InRangeAccepted(groups, narrow);
    RegroupUnique(data, NoBits(padding), wide);
  }

  /** What strict joining accepts is exactly the split form of its result. */
  lemma JoinThenSplit(groups: seq<int>, narrow: nat, wide: nat)
    requires 0 < narrow <= wide <= 31 && InRange(groups, narrow)
    requires Convert(groups, narrow, wide, true).Success?
    ensures InRange(Convert(groups, narrow, wide, true).value, wide)
    ensures Convert(Convert(groups, narrow, wide, true).value, wide, narrow, false) == Success(groups)
  {
    InRangeAccepted(groups, narrow);
    var b := AllBits(groups, narrow);
    var data, rest := Regroup(b, wide), Rest(b, wide);
    RegroupSpells(b, wide);
    RegroupInRange(b, wide);
    var split, padding := PaddedConversion(data, wide, narrow);
    NoneSet(rest);
    SameZeros(groups, split, AllBits(data, wide), |rest|, padding, narrow);
  }

  /** Strict joining uses up all but fewer bits than a narrow group has. */
  lemma JoinLength(groups: seq<int>, narrow: nat, wide: nat)
    requires 0 < narrow && 0 < wide && Convert(groups, narrow, wide, true).Success?
    ensures var data := Convert(groups, narrow, wide, true).value;
            |data| * wide <= |groups| * narrow < |data| * wide + narrow
  {
    var b := AllBits(groups, narrow);
    var data := Regroup(b, wide);
    AllBitsLength(groups, narrow);
    RegroupSpells(b, wide);
    AllBitsLength(data, wide);
  }

  lemma MoreGroups(j: nat, k: nat, width: nat)
    requires j < k
    ensures j * width + width <= k * width
  {
    var more: nat := k - j - 1;
    assert more * width >= 0;
    assert k * width == (j + 1 + more) * width == j * width + width + more * width;
  }

  lemma SamePaddings(j: nat, k: nat, width: nat, length: nat, m: nat, n: nat)
    requires j * width == length + m && k * width == length + n && m < width && n < width
    ensures m == n
  {
    if j < k {
      MoreGroups(j, k, width);
    } else if k < j {
      MoreGroups(k, j, width);
    }
  }

  lemma NumberPadded(data: seq<int>, groups: seq<int>, wide: nat, narrow: nat, padding: nat)
    requires InRange(data, wide) && InRange(groups, narrow)
    requires |groups| * narrow == |data| * wide + padding
    requires Number(groups, narrow) == Number(data, wide) * Power(padding)
    ensures AllBits(groups, narrow) == AllBits(data, wide) + NoBits(padding)
  {
    AllBitsOfNumber(groups, narrow);
    AllBitsOfNumber(data, wide);
    LengthSnoc(|data|, wide);
    LowBitsAppend(Number(data, wide), 0, |data| * wide, padding);
    LowBitsOfZero(padding);
  }

  lemma SameBits(one: seq<int>, other: seq<int>, width: nat)
    requires 0 < width && InRange(one, width) && InRange(other, width) && AllBits(one, width) == AllBits(other, width)
    ensures one == other
  {
    RegroupUnique(one, [], width);
    RegroupUnique(other, [], width);
    assert AllBits(one, width) + [] == AllBits(one, width);
    assert AllBits(other, width) + [] == AllBits(other, width);
  }

  /** Whatever spells the bits of the data and less than a group of zeros is their regrouping. */
  lemma ConvertSpelled(data: seq<int>, groups: seq<int>, wide: nat, narrow: nat, padding: nat)
    requires 0 < narrow && 0 < wide <= 31 && InRange(data, wide) && InRange(groups, narrow) && padding < narrow
    requires AllBits(groups, narrow) == AllBits(data, wide) + NoBits(padding)
    ensures Convert(data, wide, narrow, false) == Success(groups)
  {
    var found, zeros := PaddedConversion(data, wide, narrow);
    AllBitsLength(found, narrow);
    AllBitsLength(groups, narrow);
    SamePaddings(|found|, |groups|, narrow, |AllBits(data, wide)|, zeros, padding);
    SameBits(found, groups, narrow);
  }

  /** Regrouping with padding multiplies the number that the data spell by a power of two and
      writes it in the other base. */
  lemma ConvertNumber(data: seq<int>, groups: seq<int>, wide: nat, narrow: nat, padding: nat)
    requires 0 < narrow && 0 < wide <= 31 && InRange(data, wide) && InRange(groups, narrow)
    requires padding < narrow && |groups| * narrow == |data| * wide + padding
    requires Number(groups, narrow) == Number(data, wide) * Power(padding)
    ensures Convert(data, wide, narrow, false) == Success(groups)
  {
    NumberPadded(data, groups, wide, narrow, padding);
    ConvertSpelled(data, groups, wide, narrow, padding);
  }

  // ----- what is refused

  lemma QuotientZero(x: int, p: int)
    requires p > 0
    ensures x / p == 0 <==> 0 <= x < p
  {
    if 0 <= x < p {
      ModuloUnique(x, p, 0, x);
    } else {
      assert x == x / p * p + x % p;
    }
  }

  /** The conversion to an int32 keeps the low 32 bits and reads the highest as the sign. */
  lemma Int32Exactly(n: int, r: int)
    ensures ToInt32(n) == r <==> -0x8000_0000 <= r < 0x8000_0000 && (n - r) % 0x1_0000_0000 == 0
  {
  }

  /** A value is accepted if it is not negative and its low 32 bits are below the base: higher
      bits escape the comparison, which is made after the conversion to an int32. */
  lemma AcceptedExactly(value: int, from: nat)
    requires from <= 31
    ensures Accepted(value, from) <==> 0 <= value && value % 0x1_0000_0000 < Power(from)
  {
    PowerBound(from);
    QuotientZero(ToInt32(value), Power(from));
  }

  lemma BadValueExactly(data: seq<int>, from: nat, to: nat, strict: bool)
    requires 0 < from <= 31 && 0 < to
    ensures Convert(data, from, to, strict) == Failure(BadValue)
       <==> exists i :: 0 <= i < |data| && (data[i] < 0 || data[i] % 0x1_0000_0000 >= Power(from))
  {
    forall i | 0 <= i < |data|
      ensures Accepted(data[i], from) <==> !(data[i] < 0 || data[i] % 0x1_0000_0000 >= Power(from))
    {
      AcceptedExactly(data[i], from);
    }
  }

  lemma RestLength(b: Bits, width: nat)
    requires width > 0
    ensures |Rest(b, width)| == |b| % width && |Regroup(b, width)| == |b| / width
  {
    RegroupSpells(b, width);
    AllBitsLength(Regroup(b, width), width);
    ModuloUnique(|b|, width, |Regroup(b, width)|, |Rest(b, width)|);
  }

  lemma RestOfNumber(n: int, length: nat, width: nat)
    requires width > 0
    ensures true in Rest(LowBits(n, length), width) <==> n % Power(length % width) != 0
  {
    var b := LowBits(n, length);
    var k := length % width;
    RestLength(b, width);
    RestIsTail(b, width);
    LowBitsSplit(n, length - k, k);
    assert b[length - k..] == LowBits(n, k);
    ValueOfLowBits(n, k);
    ValueZero(LowBits(n, k));
  }

  /** Strict regrouping refuses the data if a whole value is left over, or if the bits left over
      are not zero: if the number they spell is not a multiple of a power of two. */
  lemma StrictRefused(data: seq<int>, from: nat, to: nat)
    requires 0 < from <= 31 && 0 < to && InRange(data, from)
    ensures var left := |data| * from % to;
            && (Convert(data, from, to, true).Success? <==> left < from && Number(data, from) % Power(left) == 0)
            && (Convert(data, from, to, true).Success? ==> |Convert(data, from, to, true).value| == |data| * from / to)
  {
    InRangeAccepted(data, from);
    AllBitsOfNumber(data, from);
    RestLength(AllBits(data, from), to);
    AllBitsLength(data, from);
    RestOfNumber(Number(data, from), |data| * from, to);
  }

  lemma SameZeros(one: seq<int>, other: seq<int>, b: Bits, m: nat, n: nat, width: nat)
    requires InRange(one, width) && InRange(other, width) && m < width && n < width
    requires AllBits(one, width) == b + NoBits(m) && AllBits(other, width) == b + NoBits(n)
    ensures one == other
  {
    if n <= m {
      assert b + NoBits(m) == b + NoBits(n) + NoBits(m - n);
      SamePadding(one, other, m - n, width);
    } else {
      assert b + NoBits(n) == b + NoBits(m) + NoBits(n - m);
      SamePadding(other, one, n - m, width);
    }
  }

  lemma NoneSet(b: Bits)
    requires true !in b
    ensures b == NoBits(|b|)
  {
    forall i | 0 <= i < |b| ensures b[i] == NoBits(|b|)[i] {
      assert b[i] in b;
    }
  }

  lemma SamePadding(longer: seq<int>, shorter: seq<int>, extra: nat, width: nat)
    requires 0 < width && InRange(longer, width) && InRange(shorter, width) && extra < width
    requires AllBits(longer, width) == AllBits(shorter, width) + NoBits(extra)
    ensures longer == shorter
  {
    RegroupUnique(longer, [], width);
    RegroupUnique(shorter, NoBits(extra), width);
    assert AllBits(longer, width) + [] == AllBits(longer, width);
  }
}
