/** A group of points of prime order, represented by discrete logarithms: the point k stands
    for k times the base point, and 0 for infinity.  Only the coordinates are left open. */
module Curve {
  import opened Wrappers
  import opened Bytes

  type Point = nat

  /** The order of the base point, the x coordinate and the parity of y of every multiple of
      it, and the decompression of a coordinate and a parity. */
  datatype Curve = Curve(order: nat, x: Point -> nat, odd: Point -> bool, fromX: (bool, nat) -> Option<Point>)

  /** The remainder, by subtraction, which spares the proofs above division. */
  function Modulo(k: nat, n: nat): (r: nat)
    requires n > 0
    ensures r < n
  {
    if k < n then k else Modulo(k - n, n)
  }

  lemma {:induction false} ModuloIsRemainder(k: nat, n: nat)
    requires n > 0
    ensures Modulo(k, n) == k % n
  {
    if k >= n {
      ModuloIsRemainder(k - n, n);
      ModuloShift(k - n, 1, n);
    }
  }

  function Mul(c: Curve, k: nat): Point
    requires c.order > 0
  {
    Modulo(k, c.order)
  }

  function Add(c: Curve, p: Point, q: Point): Point
    requires c.order > 0
  {
    Modulo(p + q, c.order)
  }

  const INFINITY: Point := 0

  predicate OnCurve(c: Curve, p: Point) {
    0 < p < c.order
  }

  /** A point and its negation share x and differ in the parity of y. */
  ghost predicate NegationLaw(c: Curve) {
    forall p: Point :: OnCurve(c, p) ==> c.x(c.order - p) == c.x(p) && c.odd(c.order - p) != c.odd(p)
  }

  /** Nothing else shares an x coordinate with a point. */
  ghost predicate DecompressionLaw(c: Curve) {
    forall p: Point :: OnCurve(c, p) ==> c.x(p) < TWO_TO_256 && c.fromX(c.odd(p), c.x(p)) == Some(p)
  }

  /** Decompression yields points, and what has been decompressed has the parity asked for. */
  ghost predicate LiftLaw(c: Curve) {
    forall odd: bool, x: nat :: c.fromX(odd, x).Some? ==>
      OnCurve(c, c.fromX(odd, x).value) && c.odd(c.fromX(odd, x).value) == odd
  }

  /** Coordinates behave like those of a curve y^2 = f(x) over a field of odd order. */
  ghost predicate Lawful(c: Curve) {
    2 < c.order < TWO_TO_256 && NegationLaw(c) && DecompressionLaw(c) && LiftLaw(c)
  }

  lemma Homomorphism(c: Curve, j: nat, k: nat)
    requires c.order > 0
    ensures Add(c, Mul(c, j), Mul(c, k)) == Mul(c, j + k)
  {
    var n := c.order;
    var q, r := j / n + k / n, j % n + k % n;
    assert j + k == q * n + r;
    ModuloShift(r, q, n);
    ModuloIsRemainder(j, n);
    ModuloIsRemainder(k, n);
    ModuloIsRemainder(j + k, n);
    ModuloIsRemainder(j % n + k % n, n);
  }

  /** Point k is reached by adding the base point k times. */
  lemma MulCounts(c: Curve, k: nat)
    requires c.order > 1
    ensures Mul(c, 0) == INFINITY && Mul(c, 1) == 1
    ensures Mul(c, k + 1) == Add(c, Mul(c, k), Mul(c, 1))
  {
    Homomorphism(c, k, 1);
  }

  lemma ModuloShift(r: int, q: int, n: int)
    requires n > 0
    ensures (q * n + r) % n == r % n
  {
    var d := (q * n + r) / n - q - r / n;
    assert d * n == r % n - (q * n + r) % n;
    assert d >= 1 ==> d * n >= n;
    assert d <= -1 ==> d * n <= -n;
  }

  // ----- compressed keys

  function Compress(c: Curve, p: Point): Buffer {
    [if c.odd(p) then 3 else 2] + Sized(c.x(p), 32)
  }

  /** Reading a compressed key; longer forms do not occur here. */
  function Decompress(c: Curve, b: Buffer): Option<Point> {
    if |b| == 33 && b[0] == 3 then c.fromX(true, FromBuffer(b[1..]))
    else if |b| == 33 && b[0] == 2 then c.fromX(false, FromBuffer(b[1..]))
    else None
  }

  lemma DecompressCompress(c: Curve, p: Point)
    requires Lawful(c) && OnCurve(c, p)
    ensures |Compress(c, p)| == 33
    ensures Decompress(c, Compress(c, p)) == Some(p)
  {
    PowerOfKeySize();
    SizedLength(c.x(p), 32);
    FromSized(c.x(p), 32);
    assert Compress(c, p)[1..] == Sized(c.x(p), 32);
  }

  /** One byte for the parity of y, and x in 32 bytes. */
  lemma CompressLayout(c: Curve, p: Point)
    requires c.x(p) < TWO_TO_256
    ensures var b := Compress(c, p);
            && |b| == 33 && FromBuffer(b[1..]) == c.x(p)
            && (b[0] == 3 <==> c.odd(p)) && (b[0] == 2 <==> !c.odd(p))
  {
    PowerOfKeySize();
    SizedLength(c.x(p), 32);
    FromSized(c.x(p), 32);
    assert Compress(c, p)[1..] == Sized(c.x(p), 32);
  }

  lemma CompressInjective(c: Curve, p: Point, q: Point)
    requires Lawful(c) && OnCurve(c, p) && OnCurve(c, q) && Compress(c, p) == Compress(c, q)
    ensures p == q
  {
    DecompressCompress(c, p);
    DecompressCompress(c, q);
  }

  // ----- the laws can be met

  /** A toy curve on seven points: x is the smaller of p and -p, and parity is that of p. */
  function ToyX(p: Point): nat {
    if 3 < p <= 7 then 7 - p else p
  }

  function ToyOdd(p: Point): bool {
    p % 2 == 1
  }

  function ToyFromX(odd: bool, x: nat): Option<Point> {
    if 1 <= x <= 3 then Some(if ToyOdd(x) == odd then x else 7 - x) else None
  }

  function SevenPoints(): Curve {
    Curve(7, ToyX, ToyOdd, ToyFromX)
  }

  lemma ToyLaws(p: Point)
    requires 0 < p < 7
    ensures ToyX(p) < 7 && ToyX(7 - p) == ToyX(p) && ToyOdd(7 - p) != ToyOdd(p) && ToyFromX(ToyOdd(p), ToyX(p)) == Some(p)
  {
    if p == 1 {} else if p == 2 {} else if p == 3 {} else if p == 4 {} else if p == 5 {} else {}
  }

  lemma ToyNegationAt(c: Curve, p: Point)
    requires c == SevenPoints() && OnCurve(c, p)
    ensures c.x(c.order - p) == c.x(p) && c.odd(c.order - p) != c.odd(p)
  {
    ToyLaws(p);
  }

  lemma ToyNegation()
    ensures NegationLaw(SevenPoints())
  {
    var c := SevenPoints();
    forall p: Point | OnCurve(c, p) ensures c.x(c.order - p) == c.x(p) && c.odd(c.order - p) != c.odd(p) {
      ToyNegationAt(c, p);
    }
  }

  lemma ToyDecompression()
    ensures DecompressionLaw(SevenPoints())
  {
    var c := SevenPoints();
    forall p: Point | OnCurve(c, p) ensures c.x(p) < TWO_TO_256 && c.fromX(c.odd(p), c.x(p)) == Some(p) {
      ToyLaws(p);
    }
  }

  lemma ToyPoints(odd: bool, x: nat)
    ensures ToyFromX(odd, x).Some? ==> 0 < ToyFromX(odd, x).value < 7 && ToyOdd(ToyFromX(odd, x).value) == odd
  {
  }

  lemma ToyLift()
    ensures LiftLaw(SevenPoints())
  {
    var c := SevenPoints();
    forall odd: bool, x: nat | c.fromX(odd, x).Some?
      ensures OnCurve(c, c.fromX(odd, x).value) && c.odd(c.fromX(odd, x).value) == odd
    {
      ToyPoints(odd, x);
    }
  }

  lemma LawsCanBeMet()
    ensures Lawful(SevenPoints())
  {
    ToyNegation();
    ToyDecompression();
    ToyLift();
  }
}
