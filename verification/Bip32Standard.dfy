/** The functions of BIP 32, written down from its sections "Conventions" and "Child key
    derivation (CKD) functions" with their own serialisations, and derivation compared with
    them. */
module Bip32Standard {
  import opened Wrappers
  import opened Bytes
  import opened Curve
  import opened Bip32

  // ----- conventions

  /** The low bytes of a number, most significant first. */
  function Ser(n: nat, size: nat): (b: Buffer)
    ensures |b| == size
    decreases size
  {
    if size == 0 then [] else Ser(n / 256, size - 1) + [n % 256]
  }

  function Ser32(i: nat): (b: Buffer)
    ensures |b| == 4
  {
    Ser(i, 4)
  }

  function Ser256(n: nat): (b: Buffer)
    ensures |b| == 32
  {
    Ser(n, 32)
  }

  /** The header is 2 or 3, depending on the parity of y. */
  function SerP(c: Curve, p: Point): (b: Buffer)
    ensures |b| == 33
  {
    [if c.odd(p) then 0x03 else 0x02] + Ser256(c.x(p))
  }

  /** The number whose digits to the base 256 are the bytes. */
  function Parse256(b: Buffer): nat {
    if b == [] then 0 else b[0] * Power256(|b| - 1) + Parse256(b[1..])
  }

  // ----- the serialisations of the code are these

  lemma SnocValue(first: Byte, rest: nat, last: Byte, n: nat)
    ensures 256 * (first * Power256(n) + rest) + last == first * Power256(n + 1) + (256 * rest + last)
  {
    assert first * Power256(n + 1) == 256 * (first * Power256(n));
  }

  lemma {:induction false} ParseSnoc(b: Buffer, last: Byte)
    ensures Parse256(b + [last]) == 256 * Parse256(b) + last
  {
    if b == [] {
      assert [last][1..] == [] && [] + [last] == [last];
    } else {
      assert (b + [last])[1..] == b[1..] + [last];
      ParseSnoc(b[1..], last);
      SnocValue(b[0], Parse256(b[1..]), last, |b| - 1);
    }
  }

  lemma {:induction false} FromBufferParses(b: Buffer)
    ensures FromBuffer(b) == Parse256(b)
  {
    if b != [] {
      var n := |b| - 1;
      FromBufferParses(b[..n]);
      ParseSnoc(b[..n], b[n]);
      assert b == b[..n] + [b[n]];
    }
  }

  lemma {:induction false} SerOfZero(size: nat)
    ensures Ser(0, size) == ZeroBytes(size)
  {
    if size > 0 {
      SerOfZero(size - 1);
    }
  }

  /** Padding a number to the size is writing it with the size, if it fits. */
  lemma {:induction false} SizedIsSer(n: nat, size: nat)
    requires size > 0 && n < Power256(size)
    ensures Sized(n, size) == Ser(n, size)
    decreases size
  {
    MinimalLength(n, size);
    if n < 256 {
      SerOfZero(size - 1);
      assert Ser(n, size) == Ser(n / 256, size - 1) + [n];
    } else {
      MinimalLength(n / 256, size - 1);
      SizedIsSer(n / 256, size - 1);
      assert Minimal(n) == Minimal(n / 256) + [n % 256];
      assert ZeroBytes(size - |Minimal(n)|) + Minimal(n) == ZeroBytes(size - |Minimal(n)|) + Minimal(n / 256) + [n % 256];
    }
  }

  /** Reading what has been written gives the number, as far as it fits. */
  lemma {:induction false} ParseOfSer(n: nat, size: nat)
    ensures n < Power256(size) ==> Parse256(Ser(n, size)) == n
    decreases size
  {
    if size > 0 {
      ParseOfSer(n / 256, size - 1);
      ParseSnoc(Ser(n / 256, size - 1), n % 256);
    }
  }

  lemma Index32IsSer(i: nat)
    ensures Index32(i) == Ser32(i)
  {
    assert i / 256 / 256 == i / 0x1_0000;
    assert i / 256 / 256 / 256 == i / 0x100_0000;
    assert Ser(i / 256 / 256 / 256, 1) == [] + [i / 256 / 256 / 256 % 256];
    assert Ser(i / 256 / 256, 2) == Ser(i / 256 / 256 / 256, 1) + [i / 256 / 256 % 256];
    assert Ser(i / 256, 3) == Ser(i / 256 / 256, 2) + [i / 256 % 256];
  }

  lemma CompressIsSerP(c: Curve, p: Point)
    requires c.x(p) < TWO_TO_256
    ensures Compress(c, p) == SerP(c, p)
  {
    PowerOfKeySize();
    SizedIsSer(c.x(p), 32);
  }

  // ----- child keys

  /** The data hashed for child i of a private key: of the key itself from 2^31 on, and of its
      point before. */
  function PrivateData(c: Curve, k: nat, i: nat): Buffer
    requires c.order > 0
  {
    if i >= 0x8000_0000 then [0x00] + Ser256(k) + Ser32(i) else SerP(c, Mul(c, k)) + Ser32(i)
  }

  /** I, split into its halves, of which the left is read as a number. */
  function LeftHalf(digest: Digest): nat {
    Parse256(digest[..32])
  }

  function PrivateDigest(p: Primitives, k: PrivateKey, i: nat): Digest
    requires p.curve.order > 0
  {
    p.sha512hmac(PrivateData(p.curve, k.privateKey, i), k.chainCode)
  }

  function PublicDigest(p: Primitives, k: PublicKey, i: nat): Digest {
    p.sha512hmac(SerP(p.curve, k.point) + Ser32(i), k.chainCode)
  }

  /** CKDpriv; there is no child if I_L is not below the order or the scalar would be zero. */
  function ChildPrivate(p: Primitives, k: PrivateKey, i: nat): Option<PrivateKey>
    requires p.curve.order > 0
  {
    var n := p.curve.order;
    var digest := PrivateDigest(p, k, i);
    var left, right := LeftHalf(digest), digest[32..];
    if left >= n || (left + k.privateKey) % n == 0 then None
    else Some(PrivateKey(k.version, (k.depth + 1) % 256, p.sha256ripemd160(SerP(p.curve, Mul(p.curve, k.privateKey)))[..4],
                         i, right, (left + k.privateKey) % n))
  }

  /** CKDpub; there is no child if I_L is not below the order or the point would be infinity. */
  function ChildPublic(p: Primitives, k: PublicKey, i: nat): Option<PublicKey>
    requires p.curve.order > 0
  {
    var n := p.curve.order;
    var digest := PublicDigest(p, k, i);
    var left, right := LeftHalf(digest), digest[32..];
    if left >= n || Add(p.curve, Mul(p.curve, left), k.point) == 0 then None
    else Some(PublicKey(k.version, (k.depth + 1) % 256, p.sha256ripemd160(SerP(p.curve, k.point))[..4],
                        i, right, Add(p.curve, Mul(p.curve, left), k.point)))
  }

  /** The advice to proceed with the next value for i, followed to the end. */
  function DerivedPrivate(p: Primitives, k: PrivateKey, i: nat): Option<PrivateKey>
    requires p.curve.order > 0
    decreases 0x1_0000_0000 - i
  {
    if i >= 0x1_0000_0000 then None
    else if ChildPrivate(p, k, i).Some? then ChildPrivate(p, k, i)
    else DerivedPrivate(p, k, i + 1)
  }

  /** Hardened children of public keys do not exist. */
  function DerivedPublic(p: Primitives, k: PublicKey, i: nat): Option<PublicKey>
    requires p.curve.order > 0
    decreases 0x8000_0000 - i
  {
    if i >= 0x8000_0000 then None
    else if ChildPublic(p, k, i).Some? then ChildPublic(p, k, i)
    else DerivedPublic(p, k, i + 1)
  }

  // ----- what the code hashes

  lemma PointOnCurve(p: Primitives, k: PrivateKey)
    requires Lawful(p.curve) && ValidPrivate(p, k)
    ensures OnCurve(p.curve, PointOf(p, k)) && p.curve.x(PointOf(p, k)) < TWO_TO_256
  {
  }

  lemma SameData(p: Primitives, k: PrivateKey, i: nat)
    requires Lawful(p.curve) && ValidPrivate(p, k)
    ensures ChildData(p, k, i, i >= HARDENED, false) == PrivateData(p.curve, k.privateKey, i)
  {
    PowerOfKeySize();
    SizedIsSer(k.privateKey, 32);
    PointOnCurve(p, k);
    CompressIsSerP(p.curve, PointOf(p, k));
    Index32IsSer(i);
  }

  lemma SamePublicData(p: Primitives, k: PublicKey, i: nat)
    requires Lawful(p.curve) && OnCurve(p.curve, k.point)
    ensures PublicData(p, k, i) == SerP(p.curve, k.point) + Ser32(i)
  {
    CompressIsSerP(p.curve, k.point);
    Index32IsSer(i);
  }

  /** Byte by byte: a zero, the private key in 32 bytes and the index in four. */
  lemma HardenedData(p: Primitives, k: PrivateKey, i: nat)
    requires 0 < p.curve.order < TWO_TO_256 && ValidPrivate(p, k) && 0x8000_0000 <= i < 0x1_0000_0000
    ensures var data: seq<int> := ChildData(p, k, i, true, false);
            && |data| == 37 && data[0] == 0
            && i == data[33] * 0x100_0000 + data[34] * 0x1_0000 + data[35] * 0x100 + data[36]
    ensures FromBuffer(ChildData(p, k, i, true, false)[1..33]) == k.privateKey
  {
    PowerOfKeySize();
    SizedLength(k.privateKey, 32);
    FromSized(k.privateKey, 32);
    var data := ChildData(p, k, i, true, false);
    Index32Value(i);
    assert data[1..33] == Sized(k.privateKey, 32) && data[33..] == Index32(i);
  }

  /** The older form: a zero, the private key in as few bytes as it has, and the index. */
  lemma OlderData(p: Primitives, k: PrivateKey, i: nat)
    requires p.curve.order > 0 && ValidPrivate(p, k) && i < 0x1_0000_0000
    ensures var data := ChildData(p, k, i, true, true);
            && |data| > 5 && data[0] == 0 && data[1] != 0
            && FromBuffer(data[1..|data| - 4]) == k.privateKey && data[|data| - 4..] == Ser32(i)
  {
    var data := ChildData(p, k, i, true, true);
    var b := Minimal(k.privateKey);
    MinimalHead(k.privateKey);
    FromMinimal(k.privateKey);
    Index32IsSer(i);
    assert data[1..|data| - 4] == b && data[|data| - 4..] == Index32(i);
  }

  /** The parity of the point, its x in 32 bytes and the index in four. */
  lemma PlainData(p: Primitives, k: PublicKey, i: nat)
    requires Lawful(p.curve) && OnCurve(p.curve, k.point) && i < 0x1_0000_0000
    ensures var data: seq<int> := PublicData(p, k, i);
            && |data| == 37 && data[0] == (if p.curve.odd(k.point) then 3 else 2)
            && i == data[33] * 0x100_0000 + data[34] * 0x1_0000 + data[35] * 0x100 + data[36]
    ensures FromBuffer(PublicData(p, k, i)[1..33]) == p.curve.x(k.point)
  {
    CompressLayout(p.curve, k.point);
    var b := Compress(p.curve, k.point);
    var data := PublicData(p, k, i);
    Index32Value(i);
    assert data[..33] == b && data[1..33] == b[1..] && data[33..] == Index32(i);
  }

  /** Private derivation hashes for an index that is not hardened what public derivation does. */
  lemma PlainDataOfPrivate(p: Primitives, k: PrivateKey, i: nat, nonCompliant: bool)
    requires p.curve.order > 0
    ensures ChildData(p, k, i, false, nonCompliant) == PublicData(p, Neuter(p, k), i)
  {
  }

  // ----- the children of the code

  lemma SameDigest(p: Primitives, k: PrivateKey, i: nat)
    requires Lawful(p.curve) && ValidPrivate(p, k)
    ensures PrivateDigest(p, k, i) == DigestAt(p, k, i, false)
    ensures LeftHalf(PrivateDigest(p, k, i)) == LeftPart(DigestAt(p, k, i, false))
  {
    SameData(p, k, i);
    FromBufferParses(DigestAt(p, k, i, false)[..32]);
  }

  lemma SamePublicDigest(p: Primitives, k: PublicKey, i: nat)
    requires Lawful(p.curve) && OnCurve(p.curve, k.point)
    ensures PublicDigest(p, k, i) == PublicDigestAt(p, k, i)
    ensures LeftHalf(PublicDigest(p, k, i)) == LeftPart(PublicDigestAt(p, k, i))
  {
    SamePublicData(p, k, i);
    FromBufferParses(PublicDigestAt(p, k, i)[..32]);
  }

  /** A child of the code is that of the standard, except where I_L is not below the order. */
  lemma SameChild(p: Primitives, k: PrivateKey, i: nat)
    requires Lawful(p.curve) && ValidPrivate(p, k)
    ensures ChildPrivate(p, k, i)
         == if LeftPart(DigestAt(p, k, i, false)) >= p.curve.order || ScalarAt(p, k, i, false) == 0 then None
            else Some(ChildAt(p, k, i, false))
  {
    SameDigest(p, k, i);
    ModuloIsRemainder(LeftPart(DigestAt(p, k, i, false)) + k.privateKey, p.curve.order);
    SameFingerPrint(p, k);
  }

  lemma SameFingerPrint(p: Primitives, k: PrivateKey)
    requires Lawful(p.curve) && ValidPrivate(p, k)
    ensures FingerPrint(p, PointOf(p, k)) == p.sha256ripemd160(SerP(p.curve, Mul(p.curve, k.privateKey)))[..4]
  {
    PointOnCurve(p, k);
    CompressIsSerP(p.curve, PointOf(p, k));
  }

  lemma SamePublicChild(p: Primitives, k: PublicKey, i: nat)
    requires Lawful(p.curve) && OnCurve(p.curve, k.point)
    ensures ChildPublic(p, k, i)
         == if LeftPart(PublicDigestAt(p, k, i)) >= p.curve.order || PublicPointAt(p, k, i) == INFINITY then None
            else Some(PublicChildAt(p, k, i))
  {
    SamePublicDigest(p, k, i);
    CompressIsSerP(p.curve, k.point);
  }

  lemma StandardStep(p: Primitives, k: PrivateKey, i: nat)
    requires Lawful(p.curve) && ValidPrivate(p, k) && i < 0x1_0000_0000
    ensures DerivedPrivate(p, k, i)
         == if LeftPart(DigestAt(p, k, i, false)) >= p.curve.order || ScalarAt(p, k, i, false) == 0
            then DerivedPrivate(p, k, i + 1) else Some(ChildAt(p, k, i, false))
  {
    SameChild(p, k, i);
  }

  lemma {:induction false} StandardGrows(p: Primitives, k: PrivateKey, i: nat)
    requires Lawful(p.curve) && ValidPrivate(p, k)
    ensures DerivedPrivate(p, k, i).Some? ==> i <= DerivedPrivate(p, k, i).value.childIndex
    decreases 0x1_0000_0000 - i
  {
    if i < 0x1_0000_0000 {
      StandardStep(p, k, i);
      StandardGrows(p, k, i + 1);
    }
  }

  /** What the code and the standard make of a key agree, except where I_L is not below the
      order. */
  predicate Matches(p: Primitives, k: PrivateKey, code: Result<PrivateKey, Bip32.Problem>, standard: Option<PrivateKey>)
    requires p.curve.order > 0
  {
    match code
    case Failure(_) => standard == None
    case Success(child) => standard == Some(child) <==> LeftPart(DigestAt(p, k, child.childIndex, false)) < p.curve.order
  }

  lemma MatchesHere(p: Primitives, k: PrivateKey, i: nat)
    requires Lawful(p.curve) && ValidPrivate(p, k) && i < 0x1_0000_0000 && ScalarAt(p, k, i, false) != 0
    ensures Matches(p, k, DerivePrivate(p, k, i, false, false), DerivedPrivate(p, k, i))
  {
    PrivateStep(p, k, i, false);
    StandardStep(p, k, i);
    StandardGrows(p, k, i + 1);
  }

  lemma MatchesEnd(p: Primitives, k: PrivateKey)
    requires p.curve.order > 0
    ensures Matches(p, k, DerivePrivate(p, k, 0x1_0000_0000, false, false), DerivedPrivate(p, k, 0x1_0000_0000))
  {
    Outside(p, k, 0x1_0000_0000, false);
  }

  lemma MatchesSkipped(p: Primitives, k: PrivateKey, i: nat)
    requires Lawful(p.curve) && ValidPrivate(p, k) && i < 0x1_0000_0000 && ScalarAt(p, k, i, false) == 0
    ensures DerivePrivate(p, k, i, false, false) == DerivePrivate(p, k, i + 1, false, false)
    ensures DerivedPrivate(p, k, i) == DerivedPrivate(p, k, i + 1)
  {
    PrivateStep(p, k, i, false);
    StandardStep(p, k, i);
  }

  lemma {:induction false} MatchesBelow(p: Primitives, k: PrivateKey, i: int)
    requires Lawful(p.curve) && ValidPrivate(p, k) && 0 <= i <= 0x1_0000_0000
    ensures Matches(p, k, DerivePrivate(p, k, i, false, false), DerivedPrivate(p, k, i))
    decreases 0x1_0000_0000 - i
  {
    if i == 0x1_0000_0000 {
      MatchesEnd(p, k);
    } else if ScalarAt(p, k, i, false) == 0 {
      MatchesSkipped(p, k, i);
      MatchesBelow(p, k, i + 1);
    } else {
      MatchesHere(p, k, i);
    }
  }

  /** The code reduces an I_L at or above the order instead of rejecting it.  It returns what
      the standard asks for exactly when the I_L it used was below the order; when it fails,
      the standard has no child either. */
  lemma MatchesStandard(p: Primitives, k: PrivateKey, i: int)
    requires Lawful(p.curve) && ValidPrivate(p, k) && 0 <= i <= 0x1_0000_0000
    ensures match DerivePrivate(p, k, i, false, false)
            case Failure(_) => DerivedPrivate(p, k, i) == None
            case Success(child) =>
              DerivedPrivate(p, k, i) == Some(child) <==> LeftHalf(PrivateDigest(p, k, child.childIndex)) < p.curve.order
  {
    MatchesBelow(p, k, i);
    var r := DerivePrivate(p, k, i, false, false);
    if r.Success? {
      SameDigest(p, k, r.value.childIndex);
    }
  }

  lemma StandardPublicStep(p: Primitives, k: PublicKey, i: nat)
    requires Lawful(p.curve) && OnCurve(p.curve, k.point) && i < 0x8000_0000
    ensures DerivedPublic(p, k, i)
         == if LeftPart(PublicDigestAt(p, k, i)) >= p.curve.order || PublicPointAt(p, k, i) == INFINITY
            then DerivedPublic(p, k, i + 1) else Some(PublicChildAt(p, k, i))
  {
    SamePublicChild(p, k, i);
  }

  lemma {:induction false} StandardPublicGrows(p: Primitives, k: PublicKey, i: nat)
    requires Lawful(p.curve) && OnCurve(p.curve, k.point)
    ensures DerivedPublic(p, k, i).Some? ==> i <= DerivedPublic(p, k, i).value.childIndex
    decreases 0x8000_0000 - i
  {
    if i < 0x8000_0000 {
      StandardPublicStep(p, k, i);
      StandardPublicGrows(p, k, i + 1);
    }
  }

  predicate PublicMatches(p: Primitives, k: PublicKey, code: Result<PublicKey, Bip32.Problem>, standard: Option<PublicKey>) {
    match code
    case Failure(_) => standard == None
    case Success(child) => standard == Some(child) <==> LeftPart(PublicDigestAt(p, k, child.childIndex)) < p.curve.order
  }

  lemma PublicMatchesHere(p: Primitives, k: PublicKey, i: nat)
    requires Lawful(p.curve) && OnCurve(p.curve, k.point) && i < 0x8000_0000 && PublicPointAt(p, k, i) != INFINITY
    ensures PublicMatches(p, k, Success(PublicChildAt(p, k, i)), DerivedPublic(p, k, i))
  {
    StandardPublicStep(p, k, i);
    StandardPublicGrows(p, k, i + 1);
  }

  lemma {:induction false} PublicMatchesBelow(p: Primitives, k: PublicKey, i: int)
    requires Lawful(p.curve) && OnCurve(p.curve, k.point) && 0 <= i <= 0x8000_0000
    ensures PublicMatches(p, k, DerivePublic(p, k, i, false), DerivedPublic(p, k, i))
    decreases 0x8000_0000 - i
  {
    if i < 0x8000_0000 {
      PublicRound(p, k, i);
      if PublicPointAt(p, k, i) == INFINITY {
        StandardPublicStep(p, k, i);
        PublicMatchesBelow(p, k, i + 1);
      } else {
        PublicMatchesHere(p, k, i);
      }
    }
  }

  /** The public side meets the standard exactly when the private side does. */
  lemma PublicMatchesStandard(p: Primitives, k: PublicKey, i: int)
    requires Lawful(p.curve) && OnCurve(p.curve, k.point) && 0 <= i <= 0x8000_0000
    ensures match DerivePublic(p, k, i, false)
            case Failure(_) => DerivedPublic(p, k, i) == None
            case Success(child) =>
              DerivedPublic(p, k, i) == Some(child) <==> LeftHalf(PublicDigest(p, k, child.childIndex)) < p.curve.order
  {
    PublicMatchesBelow(p, k, i);
    var r := DerivePublic(p, k, i, false);
    if r.Success? {
      SamePublicDigest(p, k, r.value.childIndex);
    }
  }
}
