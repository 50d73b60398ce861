/** Derivations on a toy curve, with hashes that see little of their data, in which the code
    and the standard part, or the two forms of derivation, or its private and public side. */
module Bip32Instances {
  import opened Wrappers
  import opened Bytes
  import opened Curve
  import opened Bip32
  import opened Bip32Standard

  function SmallDigest(n: Byte): Digest {
    ZeroBytes(31) + [n] + ZeroBytes(32)
  }

  lemma SmallLeftPart(n: Byte)
    ensures LeftPart(SmallDigest(n)) == n
  {
    assert SmallDigest(n)[..32] == ZeroBytes(31) + [n];
    FromPadded(31, [n]);
    assert [n][..0] == [];
  }

  function Primitives(hash: Buffer -> Byte): Primitives {
    Bip32.Primitives(SevenPoints(), (data: Buffer, chainCode: Buffer) => SmallDigest(hash(data)),
                     data => ZeroBytes(20), version => version, version => false)
  }

  /** The scalar of the toy key's child, by the number its data hash to. */
  function Scalar(n: Byte): nat {
    (n + 1) % 7
  }

  function Key(): PrivateKey {
    PrivateKey(ZeroBytes(4), 0, ZeroBytes(4), 0, ZeroBytes(32), 1)
  }

  lemma ScalarOf(hash: Buffer -> Byte, i: nat, hardened: bool, nonCompliant: bool)
    ensures var p := Primitives(hash);
            var n := hash(ChildData(p, Key(), i, hardened, nonCompliant));
            && LeftPart(DigestFor(p, Key(), i, hardened, nonCompliant)) == n
            && ChildScalar(p, Key(), DigestFor(p, Key(), i, hardened, nonCompliant)) == Scalar(n)
  {
    var p := Primitives(hash);
    var n: nat := hash(ChildData(p, Key(), i, hardened, nonCompliant));
    SmallLeftPart(n);
    ModuloIsRemainder(n + 1, 7);
  }

  // ----- the standard and the code

  function Always8(data: Buffer): Byte {
    8
  }

  lemma StandardMisses(p: Primitives, k: PrivateKey, i: int)
    requires Lawful(p.curve) && ValidPrivate(p, k) && 0 <= i < MAX_INDEX
    requires ScalarAt(p, k, i, false) != 0 && LeftPart(DigestAt(p, k, i, false)) >= p.curve.order
    ensures DerivePrivate(p, k, i, false, false) == Success(ChildAt(p, k, i, false))
    ensures DerivedPrivate(p, k, i) != Some(ChildAt(p, k, i, false))
  {
    PrivateStep(p, k, i, false);
    SameDigest(p, k, i);
    MatchesStandard(p, k, i);
  }

  /** An I_L of 8 on a group of order 7 gives a child that the standard does not have. */
  lemma StandardDiffers()
    ensures var p := Primitives(Always8);
            var r := DerivePrivate(p, Key(), HARDENED, false, false);
            r.Success? && DerivedPrivate(p, Key(), HARDENED) != Some(r.value)
  {
    LawsCanBeMet();
    ScalarOf(Always8, HARDENED, true, false);
    StandardMisses(Primitives(Always8), Key(), HARDENED);
  }

  // ----- the compliant and the older form

  function ByLength(data: Buffer): Byte {
    if |data| < 37 then 1 else 2
  }

  lemma DataLength(p: Primitives, nonCompliant: bool)
    requires p.curve.order > 0
    ensures |ChildData(p, Key(), HARDENED, true, nonCompliant)| == if nonCompliant then 6 else 37
  {
    assert Minimal(1) == [1];
  }

  /** The private key 1 needs padding, and its two forms of hardened children differ. */
  lemma FormsDiffer()
    ensures var p := Primitives(ByLength);
            DerivePrivate(p, Key(), HARDENED, false, true) != DerivePrivate(p, Key(), HARDENED, false, false)
  {
    var p := Primitives(ByLength);
    DataLength(p, true);
    DataLength(p, false);
    ScalarOf(ByLength, HARDENED, true, true);
    ScalarOf(ByLength, HARDENED, true, false);
    PrivateStep(p, Key(), HARDENED, true);
    PrivateStep(p, Key(), HARDENED, false);
  }

  // ----- the last non-hardened index

  function ByKind(data: Buffer): Byte {
    if data != [] && data[0] == 0 then 1 else 6
  }

  lemma KindOf(p: Primitives, i: nat, hardened: bool)
    requires p.curve.order > 0
    ensures ByKind(ChildData(p, Key(), i, hardened, false)) == if hardened then 1 else 6
  {
  }

  /** Skipping the last non-hardened index leads the private side into the hardened ones. */
  lemma RetryHardens()
    ensures var p := Primitives(ByKind);
            var r := DerivePrivate(p, Key(), HARDENED - 1, false, false);
            && r.Success? && r.value.childIndex == HARDENED
            && DerivePublic(p, Neuter(p, Key()), HARDENED - 1, false).Failure?
  {
    var p := Primitives(ByKind);
    KindOf(p, HARDENED - 1, false);
    KindOf(p, HARDENED, true);
    ScalarOf(ByKind, HARDENED - 1, false, false);
    ScalarOf(ByKind, HARDENED, true, false);
    PrivateStep(p, Key(), HARDENED - 1, false);
    PrivateStep(p, Key(), HARDENED, false);
    NeuterCommutes(p, Key(), HARDENED - 1, false);
  }

  /** The child at index -1 with the hardened flag has a number that is not hardened, but is not
      the child that this number has. */
  lemma NegativeDiffers()
    ensures var p := Primitives(ByKind);
            var r := DerivePrivate(p, Key(), -1, true, false);
            && r.Success? && r.value.childIndex == HARDENED - 1
            && r != DerivePrivate(p, Key(), r.value.childIndex, false, false)
  {
    var p := Primitives(ByKind);
    KindOf(p, HARDENED - 1, true);
    ScalarOf(ByKind, HARDENED - 1, true, false);
    NegativeHardened(p, Key(), -1, true, false);
    RetryHardens();
  }
}
