/** Tweaking of keys for Taproot outputs ("Constructing and spending Taproot outputs" of BIP 341):
    the private and the public side, and the check of an output key. */
module Taproot {
  import opened Wrappers
  import opened Bytes
  import opened Curve

  /** The tagged hash, which is not looked into, applied to what is written to it. */
  type TagHash = Buffer -> Buffer

  datatype Problem = InvalidMerkleRoot | HashOutOfRange | PointAtInfinity | InvalidPublicKey

  /** The tweak of an x coordinate and an optional Merkle root. */
  function TapTweakHash(c: Curve, hash: TagHash, x: nat, merkleRoot: Option<Buffer>): Result<nat, Problem> {
    if merkleRoot.Some? && |merkleRoot.value| != 32 then Failure(InvalidMerkleRoot)
    else
      var written := Sized(x, 32) + if merkleRoot.Some? then merkleRoot.value else [];
      var t := FromBuffer(hash(written));
      if t < c.order then Success(t) else Failure(HashOutOfRange)
  }

  /** The tweaked private key, from the scalar whose point has an even y. */
  function TweakPrivate(c: Curve, hash: TagHash, d: nat, merkleRoot: Option<Buffer>): Result<nat, Problem>
    requires 0 < d < c.order
  {
    var point := Mul(c, d);
    var secKey: nat := if c.odd(point) then c.order - d else d;
    match TapTweakHash(c, hash, c.x(point), merkleRoot)
    case Failure(problem) => Failure(problem)
    case Success(t) => Success(Modulo(secKey + t, c.order))
  }

  /** The point with the same x and an even y. */
  function LiftX(c: Curve, p: Point): Option<Point> {
    c.fromX(false, c.x(p))
  }

  /** The point that both public operations compute; it has no coordinates at infinity. */
  function TweakedPoint(c: Curve, hash: TagHash, p: Point, merkleRoot: Option<Buffer>): Result<Point, Problem>
    requires c.order > 0
  {
    match TapTweakHash(c, hash, c.x(p), merkleRoot)
    case Failure(problem) => Failure(problem)
    case Success(t) =>
      match LiftX(c, p)
      case None => Failure(InvalidPublicKey)
      case Some(lifted) =>
        var q := Add(c, lifted, Mul(c, t));
        if q == INFINITY then Failure(PointAtInfinity) else Success(q)
  }

  datatype Tweaked = Tweaked(parity: nat, tweakedPubKey: Buffer)

  /** The parity and the x coordinate of the tweaked point, the latter without padding. */
  function TweakPublic(c: Curve, hash: TagHash, p: Point, merkleRoot: Option<Buffer>): Result<Tweaked, Problem>
    requires c.order > 0
  {
    match TweakedPoint(c, hash, p, merkleRoot)
    case Failure(problem) => Failure(problem)
    case Success(q) => Success(Tweaked(if c.odd(q) then 1 else 0, Minimal(c.x(q))))
  }

  /** Whether an output key commits to an internal key and a Merkle root. */
  function CheckTapTweak(c: Curve, hash: TagHash, output: Point, p: Point, merkleRoot: Option<Buffer>, control: Byte)
    : Result<bool, Problem>
    requires c.order > 0
  {
    match TweakedPoint(c, hash, p, merkleRoot)
    case Failure(problem) => Failure(problem)
    case Success(q) => Success(c.x(output) == c.x(q) && (if c.odd(q) then 1 else 0) == control % 2)
  }

  function FromTaproot(c: Curve, b: Buffer): Result<Point, Problem> {
    if |b| != 32 then Failure(InvalidPublicKey)
    else
      match c.fromX(false, FromBuffer(b))
      case None => Failure(InvalidPublicKey)
      case Some(p) => Success(p)
  }

  // ----- what is hashed

  predicate ProperRoot(merkleRoot: Option<Buffer>) {
    merkleRoot.Some? ==> |merkleRoot.value| == 32
  }

  /** What is hashed for a tweak: x in 32 bytes, then the Merkle root, if there is one. */
  predicate IsMessage(b: Buffer, x: nat, merkleRoot: Option<Buffer>) {
    && |b| >= 32 && FromBuffer(b[..32]) == x
    && b[32..] == (if merkleRoot.Some? then merkleRoot.value else [])
  }

  /** The tweak is the hash of exactly this, unless that is not below the order. */
  lemma TweakHashExactly(c: Curve, hash: TagHash, x: nat, merkleRoot: Option<Buffer>) returns (b: Buffer)
    requires x < TWO_TO_256
    ensures IsMessage(b, x, merkleRoot)
    ensures TapTweakHash(c, hash, x, merkleRoot)
         == if merkleRoot.Some? && |merkleRoot.value| != 32 then Failure(InvalidMerkleRoot)
            else if FromBuffer(hash(b)) < c.order then Success(FromBuffer(hash(b)))
            else Failure(HashOutOfRange)
  {
    PowerOfKeySize();
    SizedLength(x, 32);
    FromSized(x, 32);
    b := Sized(x, 32) + if merkleRoot.Some? then merkleRoot.value else [];
    assert b[..32] == Sized(x, 32);
  }

  /** A message tells x and root, as long as roots are 32 bytes long. */
  lemma MessageUnique(b: Buffer, x: nat, merkleRoot: Option<Buffer>, b': Buffer, x': nat, merkleRoot': Option<Buffer>)
    requires IsMessage(b, x, merkleRoot) && IsMessage(b', x', merkleRoot') && ProperRoot(merkleRoot) && ProperRoot(merkleRoot')
    ensures b == b' <==> x == x' && merkleRoot == merkleRoot'
  {
    assert b == b[..32] + b[32..] && b' == b'[..32] + b'[32..];
    if x == x' {
      FromBufferInjective(b[..32], b'[..32]);
    }
  }

  /** Two different messages that the hash turns into the same number. */
  predicate Collision(hash: TagHash, a: Buffer, b: Buffer) {
    a != b && FromBuffer(hash(a)) == FromBuffer(hash(b))
  }

  /** The tweak commits to x and to the script tree: whoever finds the same tweak for another x
      or another root has found a collision of the hash. */
  lemma TweakCommits(c: Curve, hash: TagHash, x: nat, merkleRoot: Option<Buffer>, x': nat, merkleRoot': Option<Buffer>)
    returns (a: Buffer, b: Buffer)
    requires x < TWO_TO_256 && x' < TWO_TO_256
    requires TapTweakHash(c, hash, x, merkleRoot).Success?
    requires TapTweakHash(c, hash, x, merkleRoot) == TapTweakHash(c, hash, x', merkleRoot')
    ensures IsMessage(a, x, merkleRoot) && IsMessage(b, x', merkleRoot')
    ensures (x == x' && merkleRoot == merkleRoot') || Collision(hash, a, b)
  {
    a := TweakHashExactly(c, hash, x, merkleRoot);
    b := TweakHashExactly(c, hash, x', merkleRoot');
    MessageUnique(a, x, merkleRoot, b, x', merkleRoot');
  }

  ghost predicate CollisionFree(hash: TagHash) {
    forall a: Buffer, b: Buffer :: FromBuffer(hash(a)) == FromBuffer(hash(b)) ==> a == b
  }

  lemma EqualTweaks(c: Curve, hash: TagHash, x: nat, merkleRoot: Option<Buffer>, x': nat, merkleRoot': Option<Buffer>)
    requires CollisionFree(hash) && x < TWO_TO_256 && x' < TWO_TO_256
    requires TapTweakHash(c, hash, x, merkleRoot).Success? && TapTweakHash(c, hash, x', merkleRoot').Success?
    ensures TapTweakHash(c, hash, x, merkleRoot) == TapTweakHash(c, hash, x', merkleRoot')
       <==> x == x' && merkleRoot == merkleRoot'
  {
    if TapTweakHash(c, hash, x, merkleRoot) == TapTweakHash(c, hash, x', merkleRoot') {
      var a, b := TweakCommits(c, hash, x, merkleRoot, x', merkleRoot');
    }
  }

  // ----- tagged hashes

  /** "TapTweak" as bytes. */
  const TAG: Buffer := [0x54, 0x61, 0x70, 0x54, 0x77, 0x65, 0x61, 0x6b]

  /** The hash of a tag, twice, and what is written behind. */
  function Tagged(sha256: Buffer -> Buffer): TagHash {
    (message: Buffer) => sha256(sha256(TAG) + sha256(TAG) + message)
  }

  /** A collision of the tagged hash is one of the hash. */
  lemma TaggedCollision(sha256: Buffer -> Buffer, a: Buffer, b: Buffer)
    requires Collision(Tagged(sha256), a, b)
    ensures Collision(sha256, sha256(TAG) + sha256(TAG) + a, sha256(TAG) + sha256(TAG) + b)
  {
    var head := sha256(TAG) + sha256(TAG);
    assert (head + a)[|head|..] == a && (head + b)[|head|..] == b;
  }

  // ----- lifting

  lemma LiftIsEven(c: Curve, p: Point)
    requires Lawful(c) && OnCurve(c, p)
    ensures LiftX(c, p) == Some(if c.odd(p) then c.order - p else p)
  {
    if c.odd(p) {
      assert OnCurve(c, c.order - p);
    }
  }

  /** Points share an x coordinate only with their negation. */
  lemma SameX(c: Curve, p: Point, q: Point)
    requires Lawful(c) && OnCurve(c, p) && OnCurve(c, q)
    ensures c.x(p) == c.x(q) <==> p == q || p == c.order - q
  {
    LiftIsEven(c, p);
    LiftIsEven(c, q);
  }

  // ----- the two sides agree

  /** The public side in terms of the scalar of the even point. */
  lemma TweakedScalar(c: Curve, hash: TagHash, p: Point, merkleRoot: Option<Buffer>, t: nat)
    requires Lawful(c) && OnCurve(c, p) && TapTweakHash(c, hash, c.x(p), merkleRoot) == Success(t)
    ensures var sum := Modulo((if c.odd(p) then c.order - p else p) + t, c.order);
            TweakedPoint(c, hash, p, merkleRoot) == if sum == 0 then Failure(PointAtInfinity) else Success(sum)
  {
    LiftIsEven(c, p);
    SmallMultiple(c, t);
  }

  lemma SmallMultiple(c: Curve, k: nat)
    requires k < c.order
    ensures Mul(c, k) == k
  {
  }

  lemma ReducedMultiple(c: Curve, k: nat)
    requires c.order > 0
    ensures Mul(c, Modulo(k, c.order)) == Modulo(k, c.order)
  {
  }

  /** The tweaked private key is the key of the tweaked public point, whatever the parity of
      the untweaked one.  The public side fails where the private side silently returns zero,
      and in the same way where the hash or the root is rejected. */
  lemma TweaksCommute(c: Curve, hash: TagHash, d: nat, merkleRoot: Option<Buffer>)
    requires Lawful(c) && 0 < d < c.order
    ensures TweakedPoint(c, hash, Mul(c, d), merkleRoot)
         == match TweakPrivate(c, hash, d, merkleRoot)
            case Failure(problem) => Failure(problem)
            case Success(tweaked) => if tweaked == 0 then Failure(PointAtInfinity) else Success(Mul(c, tweaked))
  {
    SmallMultiple(c, d);
    match TapTweakHash(c, hash, c.x(d), merkleRoot)
    case Failure(_) =>
    case Success(t) =>
      TweakedScalar(c, hash, d, merkleRoot, t);
      ReducedMultiple(c, (if c.odd(d) then c.order - d else d) + t);
  }

  /** The public side depends on the x coordinate of the internal key only. */
  lemma TweakedPointOfNegation(c: Curve, hash: TagHash, p: Point, merkleRoot: Option<Buffer>)
    requires Lawful(c) && OnCurve(c, p)
    ensures TweakedPoint(c, hash, c.order - p, merkleRoot) == TweakedPoint(c, hash, p, merkleRoot)
  {
    assert c.x(c.order - p) == c.x(p);
  }

  /** And so does the private side: a key and its negation have the same tweaked key. */
  lemma TweakPrivateOfNegation(c: Curve, hash: TagHash, d: nat, merkleRoot: Option<Buffer>)
    requires Lawful(c) && 0 < d < c.order
    ensures TweakPrivate(c, hash, c.order - d, merkleRoot) == TweakPrivate(c, hash, d, merkleRoot)
  {
    SmallMultiple(c, d);
    SmallMultiple(c, c.order - d);
    assert OnCurve(c, d);
  }

  /** The internal key may be given to the check as the 32 bytes of its x coordinate. */
  lemma InternalKeyAsBytes(c: Curve, hash: TagHash, output: Point, p: Point, merkleRoot: Option<Buffer>, control: Byte)
    requires Lawful(c) && OnCurve(c, p)
    ensures var read := FromTaproot(c, Sized(c.x(p), 32));
            read.Success? && CheckTapTweak(c, hash, output, read.value, merkleRoot, control)
                          == CheckTapTweak(c, hash, output, p, merkleRoot, control)
  {
    PowerOfKeySize();
    SizedLength(c.x(p), 32);
    FromSized(c.x(p), 32);
    LiftIsEven(c, p);
    TweakedPointOfNegation(c, hash, p, merkleRoot);
  }

  /** Output keys are read from exactly 32 bytes, as even points. */
  lemma FromTaprootExactly(c: Curve, b: Buffer)
    requires Lawful(c)
    ensures FromTaproot(c, b).Success? <==> |b| == 32 && c.fromX(false, FromBuffer(b)).Some?
    ensures FromTaproot(c, b).Success? ==> !c.odd(FromTaproot(c, b).value) && OnCurve(c, FromTaproot(c, b).value)
  {
  }

  lemma TweakedOnCurve(c: Curve, hash: TagHash, p: Point, merkleRoot: Option<Buffer>)
    requires Lawful(c) && TweakedPoint(c, hash, p, merkleRoot).Success?
    ensures OnCurve(c, TweakedPoint(c, hash, p, merkleRoot).value)
  {
  }

  /** The check accepts exactly if the output's x and the control byte's low bit, read together
      as a compressed point, are the tweaked point. */
  lemma CheckIsExact(c: Curve, hash: TagHash, output: Point, p: Point, merkleRoot: Option<Buffer>, control: Byte)
    requires Lawful(c) && OnCurve(c, output) && OnCurve(c, p)
    requires TweakedPoint(c, hash, p, merkleRoot).Success?
    ensures CheckTapTweak(c, hash, output, p, merkleRoot, control) == Success(true)
       <==> c.fromX(control % 2 == 1, c.x(output)) == Some(TweakedPoint(c, hash, p, merkleRoot).value)
  {
    var q := TweakedPoint(c, hash, p, merkleRoot).value;
    TweakedOnCurve(c, hash, p, merkleRoot);
    if c.x(output) != c.x(q) && c.fromX(control % 2 == 1, c.x(output)) == Some(q) {
      LiftKeepsX(c, output, control % 2 == 1);
    }
  }

  /** Decompressing the x of a point, with either parity, gives a point of that x. */
  lemma LiftKeepsX(c: Curve, p: Point, odd: bool)
    requires Lawful(c) && OnCurve(c, p)
    ensures c.fromX(odd, c.x(p)) == Some(if c.odd(p) == odd then p else c.order - p)
    ensures c.x(c.fromX(odd, c.x(p)).value) == c.x(p)
  {
    if c.odd(p) != odd {
      assert OnCurve(c, c.order - p);
    }
  }

  /** The public key of the tweaked private key passes the check against the untweaked public
      key, with the parity that the public side prints and with no other. */
  lemma TweakedKeyAccepted(c: Curve, hash: TagHash, d: nat, merkleRoot: Option<Buffer>, control: Byte)
    requires Lawful(c) && 0 < d < c.order
    requires TweakPrivate(c, hash, d, merkleRoot).Success? && TweakPrivate(c, hash, d, merkleRoot).value != 0
    ensures var p := Mul(c, d);
            var output := Mul(c, TweakPrivate(c, hash, d, merkleRoot).value);
            && TweakPublic(c, hash, p, merkleRoot).Success?
            && CheckTapTweak(c, hash, output, p, merkleRoot, control)
            == Success(control % 2 == TweakPublic(c, hash, p, merkleRoot).value.parity)
  {
    TweaksCommute(c, hash, d, merkleRoot);
  }

  // ----- what an output key commits to

  lemma ModuloInjective(e: nat, t: nat, t': nat, n: nat)
    requires e < n && t < n && t' < n && Modulo(e + t, n) == Modulo(e + t', n)
    ensures t == t'
  {
    assert Modulo(e + t, n) == if e + t < n then e + t else e + t - n;
    assert Modulo(e + t', n) == if e + t' < n then e + t' else e + t' - n;
  }

  /** The private and the public tweak in the formulas of BIP 341: the even one of a scalar and
      its negation, plus the hash, modulo the order. */
  lemma TweakFormulas(c: Curve, hash: TagHash, d: nat, merkleRoot: Option<Buffer>) returns (b: Buffer)
    requires Lawful(c) && 0 < d < c.order && ProperRoot(merkleRoot)
    ensures IsMessage(b, c.x(d), merkleRoot)
    ensures var t := FromBuffer(hash(b));
            var tweaked := ((if c.odd(d) then c.order - d else d) + t) % c.order;
            && TweakPrivate(c, hash, d, merkleRoot) == (if t >= c.order then Failure(HashOutOfRange) else Success(tweaked))
            && TweakedPoint(c, hash, d, merkleRoot)
               == (if t >= c.order then Failure(HashOutOfRange) else if tweaked == 0 then Failure(PointAtInfinity)
                   else Success(tweaked))
  {
    assert OnCurve(c, d);
    b := TweakHashExactly(c, hash, c.x(d), merkleRoot);
    SmallMultiple(c, d);
    var t := FromBuffer(hash(b));
    if t < c.order {
      TweakedScalar(c, hash, d, merkleRoot, t);
      ModuloIsRemainder((if c.odd(d) then c.order - d else d) + t, c.order);
    }
  }

  /** An output key that passes the check with two roots for one internal key and one parity
      gives a collision of the hash, unless the roots are the same. */
  lemma OutputCommits(c: Curve, hash: TagHash, output: Point, p: Point, merkleRoot: Option<Buffer>, merkleRoot': Option<Buffer>,
                      control: Byte)
    returns (a: Buffer, b: Buffer)
    requires Lawful(c) && OnCurve(c, output) && OnCurve(c, p)
    requires CheckTapTweak(c, hash, output, p, merkleRoot, control) == Success(true)
    requires CheckTapTweak(c, hash, output, p, merkleRoot', control) == Success(true)
    ensures IsMessage(a, c.x(p), merkleRoot) && IsMessage(b, c.x(p), merkleRoot')
    ensures merkleRoot == merkleRoot' || Collision(hash, a, b)
  {
    CheckIsExact(c, hash, output, p, merkleRoot, control);
    CheckIsExact(c, hash, output, p, merkleRoot', control);
    var t := TapTweakHash(c, hash, c.x(p), merkleRoot).value;
    var t' := TapTweakHash(c, hash, c.x(p), merkleRoot').value;
    TweakedScalar(c, hash, p, merkleRoot, t);
    TweakedScalar(c, hash, p, merkleRoot', t');
    ModuloInjective(if c.odd(p) then c.order - p else p, t, t', c.order);
    a, b := TweakCommits(c, hash, c.x(p), merkleRoot, c.x(p), merkleRoot');
  }

  // ----- the output key as bytes

  /** What the public side prints can be read back as an output key exactly if its x coordinate
      fills 32 bytes, because it is printed without padding; it is then the tweaked point or
      its negation, and passes the check with the printed parity, for either internal key. */
  lemma TweakedKeyReadable(c: Curve, hash: TagHash, p: Point, merkleRoot: Option<Buffer>)
    requires Lawful(c) && OnCurve(c, p) && TweakPublic(c, hash, p, merkleRoot).Success?
    ensures var printed := TweakPublic(c, hash, p, merkleRoot).value;
            var q := TweakedPoint(c, hash, p, merkleRoot).value;
            var read := FromTaproot(c, printed.tweakedPubKey);
            && (read.Success? <==> c.x(q) >= Power256(31))
            && (read.Success? ==> read.value == q || read.value == c.order - q)
            && (read.Success? ==> CheckTapTweak(c, hash, read.value, p, merkleRoot, printed.parity) == Success(true))
  {
    var q := TweakedPoint(c, hash, p, merkleRoot).value;
    TweakedOnCurve(c, hash, p, merkleRoot);
    LiftIsEven(c, q);
    FromMinimal(c.x(q));
    PowerOfKeySize();
    MinimalLength(c.x(q), 32);
    MinimalLength(c.x(q), 31);
  }

  /** An instance in which the printed key is refused: on the toy curve every x is short. */
  lemma PrintedKeyRefused()
    ensures var c := SevenPoints();
            var hash := (b: Buffer) => [2];
            && Lawful(c)
            && TweakPublic(c, hash, 1, None) == Success(Tweaked(1, [1]))
            && FromTaproot(c, [1]) == Failure(InvalidPublicKey)
  {
    LawsCanBeMet();
    assert FromBuffer([2]) == 2 by {
      assert [2][..0] == [];
    }
  }
}
