/** Derivation of extended keys ("Child key derivation (CKD) functions" of BIP 32) as the
    libraries do it: two recursive functions that silently go on to the next index when a
    child would be invalid. */
module Bip32 {
  import opened Wrappers
  import opened Bytes
  import opened Curve

  type Digest = b: Buffer | |b| == 64 witness ZeroBytes(64)
  type Hash = b: Buffer | |b| == 20 witness ZeroBytes(20)

  /** The curve, the hash functions and the table of version numbers, none of which is looked
      into: publicVersion is the xpubkey number of the network found by an xprivkey number, and
      isPrivateVersion tells the xprivkey numbers of livenet and testnet. */
  datatype Primitives = Primitives(
    curve: Curve, sha512hmac: (Buffer, Buffer) -> Digest, sha256ripemd160: Buffer -> Hash,
    publicVersion: Buffer -> Buffer, isPrivateVersion: Buffer -> bool)

  const HARDENED: int := 0x8000_0000
  const MAX_INDEX: int := 2 * HARDENED

  type Depth = Byte

  datatype PrivateKey = PrivateKey(
    version: Buffer, depth: Depth, parentFingerPrint: Buffer, childIndex: nat, chainCode: Buffer, privateKey: nat)

  datatype PublicKey = PublicKey(
    version: Buffer, depth: Depth, parentFingerPrint: Buffer, childIndex: nat, chainCode: Buffer, point: Point)

  datatype Problem = InvalidPath | InvalidIndexCantDeriveHardened

  predicate ValidScalar(c: Curve, k: nat) {
    k != 0 && k < c.order
  }

  predicate ValidPrivate(p: Primitives, k: PrivateKey) {
    ValidScalar(p.curve, k.privateKey)
  }

  /** The buffers of a key have the sizes that its constructor demands. */
  predicate PrivateSizes(k: PrivateKey) {
    |k.version| == 4 && |k.parentFingerPrint| == 4 && |k.chainCode| == 32 && k.childIndex < MAX_INDEX
  }

  predicate PublicSizes(k: PublicKey) {
    |k.version| == 4 && |k.parentFingerPrint| == 4 && |k.chainCode| == 32 && k.childIndex < MAX_INDEX
  }

  function FingerPrint(p: Primitives, point: Point): (b: Buffer)
    ensures |b| == 4
  {
    p.sha256ripemd160(Compress(p.curve, point))[..4]
  }

  function PointOf(p: Primitives, k: PrivateKey): Point
    requires p.curve.order > 0
  {
    Mul(p.curve, k.privateKey)
  }

  /** The public half of an extended private key. */
  function Neuter(p: Primitives, k: PrivateKey): PublicKey
    requires p.curve.order > 0
  {
    PublicKey(p.publicVersion(k.version), k.depth, k.parentFingerPrint, k.childIndex, k.chainCode, PointOf(p, k))
  }

  /** Depths are stored in one byte. */
  function NextDepth(d: Depth): Depth {
    (d as int + 1) % 256
  }

  // ----- private derivation

  predicate ValidIndex(index: int, hardened: bool) {
    var arg := if index < HARDENED && hardened then index + HARDENED else index;
    0 <= arg < MAX_INDEX
  }

  /** What is hashed for a child.  The older, non-compliant form does not pad the private key. */
  function ChildData(p: Primitives, k: PrivateKey, index: nat, hardened: bool, nonCompliant: bool): Buffer
    requires p.curve.order > 0
  {
    if hardened && nonCompliant then [0] + Minimal(k.privateKey) + Index32(index)
    else if hardened then [0] + Sized(k.privateKey, 32) + Index32(index)
    else Compress(p.curve, PointOf(p, k)) + Index32(index)
  }

  function LeftPart(digest: Digest): nat {
    FromBuffer(digest[..32])
  }

  function ChildScalar(p: Primitives, k: PrivateKey, digest: Digest): nat
    requires p.curve.order > 0
  {
    Modulo(LeftPart(digest) + k.privateKey, p.curve.order)
  }

  function ChildOf(p: Primitives, k: PrivateKey, index: nat, digest: Digest): PrivateKey
    requires p.curve.order > 0
  {
    PrivateKey(k.version, NextDepth(k.depth), FingerPrint(p, PointOf(p, k)), index, digest[32..], ChildScalar(p, k, digest))
  }

  function DigestFor(p: Primitives, k: PrivateKey, index: nat, hardened: bool, nonCompliant: bool): Digest
    requires p.curve.order > 0
  {
    p.sha512hmac(ChildData(p, k, index, hardened, nonCompliant), k.chainCode)
  }

  function DerivePrivate(p: Primitives, k: PrivateKey, index: int, hardened: bool, nonCompliant: bool): Result<PrivateKey, Problem>
    requires p.curve.order > 0
    decreases MAX_INDEX - index
  {
    if !ValidIndex(index, hardened) then Failure(InvalidPath)
    else
      var hard := if index >= HARDENED then true else hardened;
      var i: nat := if index < HARDENED && hard then index + HARDENED else index;
      var digest := DigestFor(p, k, i, hard, nonCompliant);
      if !ValidScalar(p.curve, ChildScalar(p, k, digest)) then DerivePrivate(p, k, i + 1, false, nonCompliant)
      else Success(ChildOf(p, k, i, digest))
  }

  // ----- public derivation

  function PublicData(p: Primitives, k: PublicKey, index: nat): Buffer {
    Compress(p.curve, k.point) + Index32(index)
  }

  function PublicPoint(p: Primitives, k: PublicKey, digest: Digest): Point
    requires p.curve.order > 0
  {
    Add(p.curve, Mul(p.curve, LeftPart(digest)), k.point)
  }

  function PublicChildOf(p: Primitives, k: PublicKey, index: nat, digest: Digest): PublicKey
    requires p.curve.order > 0
  {
    PublicKey(k.version, NextDepth(k.depth), FingerPrint(p, k.point), index, digest[32..], PublicPoint(p, k, digest))
  }

  /** The point at infinity fails validation, which is caught and answered by the next index. */
  function DerivePublic(p: Primitives, k: PublicKey, index: int, hardened: bool): Result<PublicKey, Problem>
    requires p.curve.order > 0
    decreases HARDENED - index
  {
    if index >= HARDENED || hardened then Failure(InvalidIndexCantDeriveHardened)
    else if index < 0 then Failure(InvalidPath)
    else
      var digest := p.sha512hmac(PublicData(p, k, index), k.chainCode);
      if PublicPoint(p, k, digest) == INFINITY then DerivePublic(p, k, index + 1, false)
      else Success(PublicChildOf(p, k, index, digest))
  }

  // ----- one index at a time

  /** The digest a child is made from; whether it is hardened shows in its index. */
  function DigestAt(p: Primitives, k: PrivateKey, i: nat, nonCompliant: bool): Digest
    requires p.curve.order > 0
  {
    DigestFor(p, k, i, i >= HARDENED, nonCompliant)
  }

  function ScalarAt(p: Primitives, k: PrivateKey, i: nat, nonCompliant: bool): nat
    requires p.curve.order > 0
  {
    ChildScalar(p, k, DigestAt(p, k, i, nonCompliant))
  }

  function ChildAt(p: Primitives, k: PrivateKey, i: nat, nonCompliant: bool): PrivateKey
    requires p.curve.order > 0
  {
    ChildOf(p, k, i, DigestAt(p, k, i, nonCompliant))
  }

  function PublicDigestAt(p: Primitives, k: PublicKey, i: nat): Digest {
    p.sha512hmac(PublicData(p, k, i), k.chainCode)
  }

  function PublicPointAt(p: Primitives, k: PublicKey, i: nat): Point
    requires p.curve.order > 0
  {
    PublicPoint(p, k, PublicDigestAt(p, k, i))
  }

  function PublicChildAt(p: Primitives, k: PublicKey, i: nat): PublicKey
    requires p.curve.order > 0
  {
    PublicChildOf(p, k, i, PublicDigestAt(p, k, i))
  }

  lemma PrivateStep(p: Primitives, k: PrivateKey, i: int, nonCompliant: bool)
    requires p.curve.order > 0 && 0 <= i < MAX_INDEX
    ensures DerivePrivate(p, k, i, false, nonCompliant)
         == if ScalarAt(p, k, i, nonCompliant) == 0 then DerivePrivate(p, k, i + 1, false, nonCompliant)
            else Success(ChildAt(p, k, i, nonCompliant))
  {
  }

  lemma HardenedFlag(p: Primitives, k: PrivateKey, i: int, nonCompliant: bool)
    requires p.curve.order > 0 && 0 <= i < HARDENED
    ensures DerivePrivate(p, k, i, true, nonCompliant) == DerivePrivate(p, k, i + HARDENED, false, nonCompliant)
  {
  }

  /** Where the index is hardened already, the flag changes nothing. */
  lemma HardenedAlready(p: Primitives, k: PrivateKey, i: int, nonCompliant: bool)
    requires p.curve.order > 0 && HARDENED <= i
    ensures DerivePrivate(p, k, i, true, nonCompliant) == DerivePrivate(p, k, i, false, nonCompliant)
  {
  }

  lemma {:induction false} Outside(p: Primitives, k: PrivateKey, i: int, nonCompliant: bool)
    requires p.curve.order > 0 && (i < 0 || i >= MAX_INDEX)
    ensures DerivePrivate(p, k, i, false, nonCompliant) == Failure(InvalidPath)
  {
  }

  /** A child at the least index from i on whose scalar is not zero, or none if all are. */
  predicate IsLeast(p: Primitives, k: PrivateKey, i: int, nonCompliant: bool, r: Result<PrivateKey, Problem>)
    requires p.curve.order > 0 && 0 <= i
  {
    match r
    case Failure(_) => forall m :: i <= m < MAX_INDEX ==> ScalarAt(p, k, m, nonCompliant) == 0
    case Success(child) =>
      && i <= child.childIndex < MAX_INDEX
      && child == ChildAt(p, k, child.childIndex, nonCompliant)
      && ValidScalar(p.curve, child.privateKey)
      && (forall m :: i <= m < child.childIndex ==> ScalarAt(p, k, m, nonCompliant) == 0)
  }

  lemma ChildIsLeast(p: Primitives, k: PrivateKey, i: int, nonCompliant: bool)
    requires p.curve.order > 0 && 0 <= i < MAX_INDEX && ScalarAt(p, k, i, nonCompliant) != 0
    ensures IsLeast(p, k, i, nonCompliant, Success(ChildAt(p, k, i, nonCompliant)))
  {
  }

  lemma SkippedIsLeast(p: Primitives, k: PrivateKey, i: int, nonCompliant: bool, r: Result<PrivateKey, Problem>)
    requires p.curve.order > 0 && 0 <= i < MAX_INDEX && ScalarAt(p, k, i, nonCompliant) == 0
    requires IsLeast(p, k, i + 1, nonCompliant, r)
    ensures IsLeast(p, k, i, nonCompliant, r)
  {
  }

  /** Retrying is total and minimal: from a start index the derivation returns the child at the
      least index whose scalar is not zero, and fails exactly if there is none. */
  lemma {:induction false} RetryIsLeast(p: Primitives, k: PrivateKey, i: int, nonCompliant: bool)
    requires p.curve.order > 0 && 0 <= i <= MAX_INDEX
    ensures IsLeast(p, k, i, nonCompliant, DerivePrivate(p, k, i, false, nonCompliant))
    decreases MAX_INDEX - i
  {
    if i == MAX_INDEX {
      Outside(p, k, i, nonCompliant);
    } else {
      PrivateStep(p, k, i, nonCompliant);
      if ScalarAt(p, k, i, nonCompliant) == 0 {
        RetryIsLeast(p, k, i + 1, nonCompliant);
        SkippedIsLeast(p, k, i, nonCompliant, DerivePrivate(p, k, i + 1, false, nonCompliant));
      } else {
        ChildIsLeast(p, k, i, nonCompliant);
      }
    }
  }

  /** Of the negative indexes those from -2^31 on pass validation, with the hardened flag only.
      The child is then numbered with the index counted back from 2^31, which is not hardened,
      but made from the private key like a hardened one; where its scalar is zero, derivation
      goes on without hardening to the least later index with another scalar. */
  lemma NegativeHardened(p: Primitives, k: PrivateKey, index: int, hardened: bool, nonCompliant: bool)
    requires p.curve.order > 0 && index < 0
    ensures ValidIndex(index, hardened) <==> hardened && -HARDENED <= index
    ensures DerivePrivate(p, k, index, hardened, nonCompliant)
         == if !(hardened && -HARDENED <= index) then Failure(InvalidPath)
            else
              var digest := DigestFor(p, k, index + HARDENED, true, nonCompliant);
              if ChildScalar(p, k, digest) == 0 then DerivePrivate(p, k, index + HARDENED + 1, false, nonCompliant)
              else Success(ChildOf(p, k, index + HARDENED, digest))
    ensures hardened && -HARDENED <= index && ChildScalar(p, k, DigestFor(p, k, index + HARDENED, true, nonCompliant)) == 0 ==>
      IsLeast(p, k, index + HARDENED + 1, nonCompliant, DerivePrivate(p, k, index, hardened, nonCompliant))
  {
    if hardened && -HARDENED <= index {
      RetryIsLeast(p, k, index + HARDENED + 1, nonCompliant);
    }
  }

  /** Public derivation refuses negative indexes as such, and all that is or gets hardened. */
  lemma {:induction false} PublicRefusals(p: Primitives, k: PublicKey, index: int, hardened: bool)
    requires p.curve.order > 0
    ensures DerivePublic(p, k, index, hardened) == Failure(InvalidPath) <==> index < 0 && !hardened
    ensures hardened || index >= 0x8000_0000 ==> DerivePublic(p, k, index, hardened) == Failure(InvalidIndexCantDeriveHardened)
    decreases HARDENED - index
  {
    if 0 <= index < HARDENED && !hardened {
      PublicRound(p, k, index);
      PublicRefusals(p, k, index + 1, false);
    }
  }

  // ----- the two sides agree

  lemma PublicStep(p: Primitives, k: PrivateKey, i: int, nonCompliant: bool)
    requires p.curve.order > 1 && ValidPrivate(p, k) && 0 <= i < HARDENED
    ensures DerivePublic(p, Neuter(p, k), i, false)
         == if ScalarAt(p, k, i, nonCompliant) == 0 then DerivePublic(p, Neuter(p, k), i + 1, false)
            else Success(Neuter(p, ChildAt(p, k, i, nonCompliant)))
  {
    var digest := DigestAt(p, k, i, nonCompliant);
    Homomorphism(p.curve, LeftPart(digest), k.privateKey);
    Reduced(p.curve, ChildScalar(p, k, digest));
  }

  lemma Reduced(c: Curve, k: nat)
    requires k < c.order
    ensures Mul(c, k) == k
  {
  }

  /** Private and public derivation agree at every index: public derivation succeeds exactly
      when private derivation ends at a non-hardened index, and then yields its public half. */
  lemma {:induction false} NeuterCommutes(p: Primitives, k: PrivateKey, index: int, nonCompliant: bool)
    requires p.curve.order > 1 && ValidPrivate(p, k)
    ensures var private := DerivePrivate(p, k, index, false, nonCompliant);
            var public := DerivePublic(p, Neuter(p, k), index, false);
            && (public.Success? <==> private.Success? && private.value.childIndex < HARDENED)
            && (public.Success? ==> public.value == Neuter(p, private.value))
    decreases MAX_INDEX - index
  {
    if 0 <= index < HARDENED {
      PrivateStep(p, k, index, nonCompliant);
      PublicStep(p, k, index, nonCompliant);
      if ScalarAt(p, k, index, nonCompliant) == 0 {
        NeuterCommutes(p, k, index + 1, nonCompliant);
      }
    } else if HARDENED <= index < MAX_INDEX {
      RetryIsLeast(p, k, index, nonCompliant);
    } else {
      Outside(p, k, index, nonCompliant);
    }
  }

  // ----- public derivation by itself

  /** A child at the least non-hardened index from i on whose point is not infinity, or none. */
  predicate IsLeastPublic(p: Primitives, k: PublicKey, i: int, r: Result<PublicKey, Problem>)
    requires p.curve.order > 0 && 0 <= i
  {
    match r
    case Failure(_) => forall m :: i <= m < HARDENED ==> PublicPointAt(p, k, m) == INFINITY
    case Success(child) =>
      && i <= child.childIndex < HARDENED
      && child == PublicChildAt(p, k, child.childIndex)
      && OnCurve(p.curve, child.point)
      && (forall m :: i <= m < child.childIndex ==> PublicPointAt(p, k, m) == INFINITY)
  }

  lemma PublicChildIsLeast(p: Primitives, k: PublicKey, i: int)
    requires p.curve.order > 0 && 0 <= i < HARDENED && PublicPointAt(p, k, i) != INFINITY
    ensures IsLeastPublic(p, k, i, Success(PublicChildAt(p, k, i)))
  {
  }

  lemma PublicRound(p: Primitives, k: PublicKey, i: int)
    requires p.curve.order > 0 && 0 <= i < HARDENED
    ensures DerivePublic(p, k, i, false)
         == if PublicPointAt(p, k, i) == INFINITY then DerivePublic(p, k, i + 1, false)
            else Success(PublicChildAt(p, k, i))
  {
  }

  /** Retrying is total and minimal on the public side, too, for every public key. */
  lemma {:induction false} PublicRetryIsLeast(p: Primitives, k: PublicKey, i: int)
    requires p.curve.order > 0 && 0 <= i <= HARDENED
    ensures IsLeastPublic(p, k, i, DerivePublic(p, k, i, false))
    decreases HARDENED - i
  {
    if i < HARDENED {
      PublicRound(p, k, i);
      if PublicPointAt(p, k, i) == INFINITY {
        PublicRetryIsLeast(p, k, i + 1);
      } else {
        PublicChildIsLeast(p, k, i);
      }
    }
  }

  // ----- paths

  function PrivatePath(p: Primitives, k: PrivateKey, path: seq<int>, nonCompliant: bool): Result<PrivateKey, Problem>
    requires p.curve.order > 0
    decreases path
  {
    if path == [] then Success(k)
    else
      match DerivePrivate(p, k, path[0], false, nonCompliant)
      case Failure(problem) => Failure(problem)
      case Success(child) => PrivatePath(p, child, path[1..], nonCompliant)
  }

  function PublicPath(p: Primitives, k: PublicKey, path: seq<int>): Result<PublicKey, Problem>
    requires p.curve.order > 0
    decreases path
  {
    if path == [] then Success(k)
    else
      match DerivePublic(p, k, path[0], false)
      case Failure(problem) => Failure(problem)
      case Success(child) => PublicPath(p, child, path[1..])
  }

  /** Every step of the private derivation succeeds at a non-hardened index. */
  predicate NeverHardens(p: Primitives, k: PrivateKey, path: seq<int>, nonCompliant: bool)
    requires p.curve.order > 0
    decreases path
  {
    path != [] ==>
      match DerivePrivate(p, k, path[0], false, nonCompliant)
      case Failure(_) => false
      case Success(child) => child.childIndex < HARDENED && NeverHardens(p, child, path[1..], nonCompliant)
  }

  /** Whole paths commute with taking the public half, whatever indexes are skipped on the way. */
  lemma {:induction false} NeuterCommutesOnPaths(p: Primitives, k: PrivateKey, path: seq<int>, nonCompliant: bool)
    requires p.curve.order > 1 && ValidPrivate(p, k)
    ensures var private := PrivatePath(p, k, path, nonCompliant);
            var public := PublicPath(p, Neuter(p, k), path);
            && (public.Success? <==> NeverHardens(p, k, path, nonCompliant))
            && (public.Success? ==> private.Success? && public.value == Neuter(p, private.value))
    decreases path
  {
    if path != [] {
      NeuterCommutes(p, k, path[0], nonCompliant);
      var private := DerivePrivate(p, k, path[0], false, nonCompliant);
      if private.Success? {
        DerivedValid(p, k, path[0], nonCompliant);
        NeuterCommutesOnPaths(p, private.value, path[1..], nonCompliant);
      }
    }
  }

  lemma DerivedValid(p: Primitives, k: PrivateKey, index: int, nonCompliant: bool)
    requires p.curve.order > 0 && DerivePrivate(p, k, index, false, nonCompliant).Success?
    ensures ValidPrivate(p, DerivePrivate(p, k, index, false, nonCompliant).value)
  {
    if 0 <= index < MAX_INDEX {
      RetryIsLeast(p, k, index, nonCompliant);
    } else {
      Outside(p, k, index, nonCompliant);
    }
  }

  /** Every private key that can be reached is between 1 and the order. */
  lemma {:induction false} ReachableValid(p: Primitives, k: PrivateKey, path: seq<int>, nonCompliant: bool)
    requires p.curve.order > 0 && ValidPrivate(p, k) && PrivatePath(p, k, path, nonCompliant).Success?
    ensures ValidPrivate(p, PrivatePath(p, k, path, nonCompliant).value)
    decreases path
  {
    if path != [] {
      DerivedValid(p, k, path[0], nonCompliant);
      ReachableValid(p, DerivePrivate(p, k, path[0], false, nonCompliant).value, path[1..], nonCompliant);
    }
  }

  lemma {:induction false} PrivatePathConcat(p: Primitives, k: PrivateKey, path: seq<int>, more: seq<int>, nonCompliant: bool)
    requires p.curve.order > 0
    ensures PrivatePath(p, k, path + more, nonCompliant)
         == match PrivatePath(p, k, path, nonCompliant)
            case Failure(problem) => Failure(problem)
            case Success(middle) => PrivatePath(p, middle, more, nonCompliant)
    decreases path
  {
    if path == [] {
      assert path + more == more;
    } else {
      assert (path + more)[1..] == path[1..] + more;
      var child := DerivePrivate(p, k, path[0], false, nonCompliant);
      if child.Success? {
        PrivatePathConcat(p, child.value, path[1..], more, nonCompliant);
      }
    }
  }

  // ----- the older, non-compliant form

  predicate TopByteSet(k: PrivateKey) {
    k.privateKey >= Power256(31)
  }

  /** The two forms hash the same data exactly if the child is not hardened or the private key
      needs no padding. */
  lemma SameChildData(p: Primitives, k: PrivateKey, i: nat)
    requires p.curve.order > 0
    ensures ChildData(p, k, i, i >= HARDENED, true) == ChildData(p, k, i, i >= HARDENED, false)
       <==> i < HARDENED || TopByteSet(k)
  {
    SizedIsMinimal(k.privateKey, 32);
    if i >= HARDENED {
      var minimal, sized := [0] + Minimal(k.privateKey) + Index32(i), [0] + Sized(k.privateKey, 32) + Index32(i);
      assert |minimal| == |sized| ==> minimal[1..|minimal| - 4] == Minimal(k.privateKey) && sized[1..|sized| - 4] == Sized(k.privateKey, 32);
    }
  }

  lemma SameStep(p: Primitives, k: PrivateKey, i: nat)
    requires p.curve.order > 0 && (i < HARDENED || TopByteSet(k))
    ensures ScalarAt(p, k, i, true) == ScalarAt(p, k, i, false) && ChildAt(p, k, i, true) == ChildAt(p, k, i, false)
  {
    SameChildData(p, k, i);
  }

  lemma StartsBelow(p: Primitives, k: PrivateKey, i: int, nonCompliant: bool)
    requires p.curve.order > 0 && DerivePrivate(p, k, i, false, nonCompliant).Success?
    ensures 0 <= i <= DerivePrivate(p, k, i, false, nonCompliant).value.childIndex
  {
    if 0 <= i < MAX_INDEX {
      RetryIsLeast(p, k, i, nonCompliant);
    } else {
      Outside(p, k, i, nonCompliant);
    }
  }

  /** The derivation ends at a non-hardened index. */
  predicate EndsBelow(p: Primitives, k: PrivateKey, i: int)
    requires p.curve.order > 0
  {
    var r := DerivePrivate(p, k, i, false, false);
    r.Success? && r.value.childIndex < HARDENED
  }

  /** The forms derive the same child of keys that need no padding, and of all keys where the
      compliant form ends at a non-hardened index. */
  lemma {:induction false} FormsAgree(p: Primitives, k: PrivateKey, index: int)
    requires p.curve.order > 0
    requires TopByteSet(k) || EndsBelow(p, k, index)
    ensures DerivePrivate(p, k, index, false, true) == DerivePrivate(p, k, index, false, false)
    decreases MAX_INDEX - index
  {
    if 0 <= index < MAX_INDEX {
      if EndsBelow(p, k, index) {
        StartsBelow(p, k, index, false);
      }
      SameStep(p, k, index);
      PrivateStep(p, k, index, true);
      PrivateStep(p, k, index, false);
      if ScalarAt(p, k, index, false) == 0 {
        FormsAgree(p, k, index + 1);
      }
    } else {
      Outside(p, k, index, true);
      Outside(p, k, index, false);
    }
  }

  /** Along a path of the compliant form, every step starts from a key without padding or ends
      at a non-hardened index. */
  predicate PaddingNeverMatters(p: Primitives, k: PrivateKey, path: seq<int>)
    requires p.curve.order > 0
    decreases path
  {
    path != [] ==>
      var r := DerivePrivate(p, k, path[0], false, false);
      && (TopByteSet(k) || EndsBelow(p, k, path[0]))
      && (r.Success? ==> PaddingNeverMatters(p, r.value, path[1..]))
  }

  lemma {:induction false} FormsAgreeOnPaths(p: Primitives, k: PrivateKey, path: seq<int>)
    requires p.curve.order > 0 && PaddingNeverMatters(p, k, path)
    ensures PrivatePath(p, k, path, true) == PrivatePath(p, k, path, false)
    decreases path
  {
    if path != [] {
      FormsAgree(p, k, path[0]);
      var r := DerivePrivate(p, k, path[0], false, false);
      if r.Success? {
        FormsAgreeOnPaths(p, r.value, path[1..]);
      }
    }
  }
}
