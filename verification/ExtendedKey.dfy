/** Extended keys as 78 bytes ("Serialization format" of BIP 32), before the base-58 check
    encoding, which is not looked into. */
module ExtendedKey {
  import opened Wrappers
  import opened Bytes
  import opened Curve
  import opened Bip32

  const DATA_LENGTH := 78
  const VERSION_END := 4
  const DEPTH_END := VERSION_END + 1
  const PARENT_FINGER_PRINT_END := DEPTH_END + 4
  const CHILD_INDEX_END := PARENT_FINGER_PRINT_END + 4
  const CHAIN_CODE_END := CHILD_INDEX_END + 32
  const PRIVATE_KEY_START := CHAIN_CODE_END + 1

  /** The buffers that both kinds of key keep, and the key itself. */
  datatype Buffers = Buffers(
    version: Buffer, depth: Buffer, parentFingerPrint: Buffer, childIndex: Buffer, chainCode: Buffer, key: Buffer)

  predicate Sizes(b: Buffers, keySize: nat) {
    && |b.version| == 4 && |b.depth| == 1 && |b.parentFingerPrint| == 4 && |b.childIndex| == 4
    && |b.chainCode| == 32 && |b.key| == keySize
  }

  function SliceHead(data: Buffer, key: Buffer): Buffers
    requires |data| == DATA_LENGTH
  {
    Buffers(data[..VERSION_END], data[VERSION_END..DEPTH_END], data[DEPTH_END..PARENT_FINGER_PRINT_END],
            data[PARENT_FINGER_PRINT_END..CHILD_INDEX_END], data[CHILD_INDEX_END..CHAIN_CODE_END], key)
  }

  function SlicePrivate(data: Buffer): (b: Buffers)
    requires |data| == DATA_LENGTH
    ensures Sizes(b, 32)
  {
    SliceHead(data, data[PRIVATE_KEY_START..])
  }

  function SlicePublic(data: Buffer): (b: Buffers)
    requires |data| == DATA_LENGTH
    ensures Sizes(b, 33)
  {
    SliceHead(data, data[CHAIN_CODE_END..])
  }

  function Head(b: Buffers): Buffer {
    b.version + b.depth + b.parentFingerPrint + b.childIndex + b.chainCode
  }

  function ConcatPrivate(b: Buffers): Buffer {
    Head(b) + [0] + b.key
  }

  function ConcatPublic(b: Buffers): Buffer {
    Head(b) + b.key
  }

  // ----- reading and writing serialised keys

  datatype Error = InvalidLength | InvalidKey

  function LoadPrivate(p: Primitives, data: Buffer): Result<Buffers, Error> {
    if |data| != DATA_LENGTH then Failure(InvalidLength)
    else
      var b := SlicePrivate(data);
      if ValidScalar(p.curve, FromBuffer(b.key)) then Success(b) else Failure(InvalidKey)
  }

  /** The buffers of the public half of a private key. */
  function PublicHalf(p: Primitives, b: Buffers): Buffers
    requires p.curve.order > 0
  {
    b.(version := p.publicVersion(b.version), key := Compress(p.curve, Mul(p.curve, FromBuffer(b.key))))
  }

  /** Serialised private keys of the main networks are accepted, too, and halved. */
  function LoadPublic(p: Primitives, data: Buffer): Result<Buffers, Error>
    requires p.curve.order > 0
  {
    if |data| != DATA_LENGTH then Failure(InvalidLength)
    else if p.isPrivateVersion(data[..VERSION_END]) then
      match LoadPrivate(p, data)
      case Failure(error) => Failure(error)
      case Success(b) => Success(PublicHalf(p, b))
    else
      var b := SlicePublic(data);
      if Decompress(p.curve, b.key).Some? then Success(b) else Failure(InvalidKey)
  }

  lemma HeadOfSlices(data: Buffer, key: Buffer)
    requires |data| == DATA_LENGTH
    ensures Head(SliceHead(data, key)) == data[..CHAIN_CODE_END]
  {
  }

  /** Writing a loaded extended private key gives back its data with byte 45 cleared, which is
      the data itself exactly if that byte was clear; a second round changes nothing. */
  lemma ReserialisePrivate(p: Primitives, data: Buffer)
    requires LoadPrivate(p, data).Success?
    ensures |data| == DATA_LENGTH
    ensures var written := ConcatPrivate(LoadPrivate(p, data).value);
            && written == data[CHAIN_CODE_END := 0]
            && (written == data <==> data[CHAIN_CODE_END] == 0)
            && LoadPrivate(p, written) == LoadPrivate(p, data)
  {
    HeadOfSlices(data, data[PRIVATE_KEY_START..]);
    var written := data[CHAIN_CODE_END := 0];
    assert written == data[..CHAIN_CODE_END] + [0] + data[PRIVATE_KEY_START..];
    assert data == data[..CHAIN_CODE_END] + [data[CHAIN_CODE_END]] + data[PRIVATE_KEY_START..];
    SameSlices(data, written);
  }

  lemma SameSlices(data: Buffer, written: Buffer)
    requires |data| == DATA_LENGTH && written == data[CHAIN_CODE_END := 0]
    ensures SlicePrivate(written) == SlicePrivate(data)
  {
  }

  /** Writing a loaded extended public key gives its data back, unless the data had the version
      of a private key: then it gives the public half of what is loaded as a private key. */
  lemma ReserialisePublic(p: Primitives, data: Buffer)
    requires p.curve.order > 0 && LoadPublic(p, data).Success?
    ensures |data| == DATA_LENGTH
    ensures !p.isPrivateVersion(data[..VERSION_END]) ==> ConcatPublic(LoadPublic(p, data).value) == data
    ensures p.isPrivateVersion(data[..VERSION_END]) ==>
      LoadPrivate(p, data).Success? && LoadPublic(p, data) == Success(PublicHalf(p, LoadPrivate(p, data).value))
  {
    HeadOfSlices(data, data[CHAIN_CODE_END..]);
    assert data == data[..CHAIN_CODE_END] + data[CHAIN_CODE_END..];
  }

  lemma SliceOfConcat(b: Buffers, key: Buffer, rest: Buffer)
    requires Sizes(b, |b.key|) && |rest| == 33
    ensures |Head(b) + rest| == DATA_LENGTH
    ensures SliceHead(Head(b) + rest, key) == b.(key := key)
    ensures (Head(b) + rest)[CHAIN_CODE_END..] == rest
    ensures (Head(b) + rest)[..VERSION_END] == b.version
  {
    var data := Head(b) + rest;
    assert data[..VERSION_END] == b.version;
    assert data[VERSION_END..DEPTH_END] == b.depth;
    assert data[DEPTH_END..PARENT_FINGER_PRINT_END] == b.parentFingerPrint;
    assert data[PARENT_FINGER_PRINT_END..CHILD_INDEX_END] == b.childIndex;
    assert data[CHILD_INDEX_END..CHAIN_CODE_END] == b.chainCode;
  }

  lemma SliceConcatPrivate(b: Buffers)
    requires Sizes(b, 32)
    ensures |ConcatPrivate(b)| == DATA_LENGTH && SlicePrivate(ConcatPrivate(b)) == b
    ensures ConcatPrivate(b)[CHAIN_CODE_END] == 0 && ConcatPrivate(b)[..VERSION_END] == b.version
    ensures ConcatPrivate(b)[CHAIN_CODE_END..] == [0] + b.key
  {
    SliceOfConcat(b, b.key, [0] + b.key);
    assert ConcatPrivate(b) == Head(b) + ([0] + b.key);
    assert ConcatPrivate(b)[PRIVATE_KEY_START..] == b.key;
  }

  lemma SliceConcatPublic(b: Buffers)
    requires Sizes(b, 33)
    ensures |ConcatPublic(b)| == DATA_LENGTH && SlicePublic(ConcatPublic(b)) == b
    ensures ConcatPublic(b)[CHAIN_CODE_END] == b.key[0] && ConcatPublic(b)[..VERSION_END] == b.version
    ensures SlicePrivate(ConcatPublic(b)) == b.(key := b.key[1..])
  {
    SliceOfConcat(b, b.key, b.key);
    SliceOfConcat(b, b.key[1..], b.key);
    assert ConcatPublic(b)[PRIVATE_KEY_START..] == ConcatPublic(b)[CHAIN_CODE_END..][1..];
  }

  // ----- the keys of module Bip32

  function PrivateBuffers(k: PrivateKey): Buffers {
    Buffers(k.version, [k.depth], k.parentFingerPrint, Index32(k.childIndex), k.chainCode, Sized(k.privateKey, 32))
  }

  function PublicBuffers(p: Primitives, k: PublicKey): Buffers {
    Buffers(k.version, [k.depth], k.parentFingerPrint, Index32(k.childIndex), k.chainCode, Compress(p.curve, k.point))
  }

  function SerialisePrivate(k: PrivateKey): Buffer {
    ConcatPrivate(PrivateBuffers(k))
  }

  function SerialisePublic(p: Primitives, k: PublicKey): Buffer {
    ConcatPublic(PublicBuffers(p, k))
  }

  lemma PrivateBufferSizes(p: Primitives, k: PrivateKey)
    requires Lawful(p.curve) && ValidPrivate(p, k) && PrivateSizes(k)
    ensures Sizes(PrivateBuffers(k), 32)
  {
    PowerOfKeySize();
    SizedLength(k.privateKey, 32);
  }

  lemma PublicBufferSizes(p: Primitives, k: PublicKey)
    requires Lawful(p.curve) && OnCurve(p.curve, k.point) && PublicSizes(k)
    ensures Sizes(PublicBuffers(p, k), 33)
  {
    DecompressCompress(p.curve, k.point);
  }

  /** The serialised form determines the private key it was made from, and loads. */
  lemma PrivateRoundTrip(p: Primitives, k: PrivateKey)
    requires Lawful(p.curve) && ValidPrivate(p, k) && PrivateSizes(k)
    ensures LoadPrivate(p, SerialisePrivate(k)) == Success(PrivateBuffers(k))
  {
    PrivateBufferSizes(p, k);
    SliceConcatPrivate(PrivateBuffers(k));
    FromSized(k.privateKey, 32);
  }

  lemma PrivateInjective(p: Primitives, k: PrivateKey, l: PrivateKey)
    requires Lawful(p.curve) && ValidPrivate(p, k) && PrivateSizes(k) && ValidPrivate(p, l) && PrivateSizes(l)
    requires SerialisePrivate(k) == SerialisePrivate(l)
    ensures k == l
  {
    PrivateRoundTrip(p, k);
    PrivateRoundTrip(p, l);
    assert PrivateBuffers(k) == PrivateBuffers(l);
    SizedInjective(k.privateKey, l.privateKey, 32);
    Index32Injective(k.childIndex, l.childIndex);
    assert [k.depth][0] == [l.depth][0];
  }

  /** The serialised form of a public key loads with its own fields, unless its version is that
      of a private key: then its x coordinate is taken for a private key. */
  lemma PublicRoundTrip(p: Primitives, k: PublicKey)
    requires Lawful(p.curve) && OnCurve(p.curve, k.point) && PublicSizes(k)
    ensures var x := p.curve.x(k.point);
            LoadPublic(p, SerialisePublic(p, k))
            == if !p.isPrivateVersion(k.version) then Success(PublicBuffers(p, k))
               else if ValidScalar(p.curve, x) then Success(PublicHalf(p, PublicBuffers(p, k).(key := Sized(x, 32))))
               else Failure(InvalidKey)
  {
    PublicBufferSizes(p, k);
    SliceConcatPublic(PublicBuffers(p, k));
    DecompressCompress(p.curve, k.point);
    CompressTail(p.curve, k.point);
  }

  lemma CompressTail(c: Curve, point: Point)
    ensures Compress(c, point)[1..] == Sized(c.x(point), 32) && FromBuffer(Sized(c.x(point), 32)) == c.x(point)
  {
    FromSized(c.x(point), 32);
  }

  /** A serialised private key is loaded as the public half of its key where its version is known
      as private, and refused elsewhere. */
  lemma LoadPublicOfPrivate(p: Primitives, k: PrivateKey)
    requires Lawful(p.curve) && ValidPrivate(p, k) && PrivateSizes(k)
    ensures LoadPublic(p, SerialisePrivate(k))
         == if p.isPrivateVersion(k.version) then Success(PublicBuffers(p, Neuter(p, k))) else Failure(InvalidKey)
  {
    PrivateBufferSizes(p, k);
    PrivateRoundTrip(p, k);
    SliceConcatPrivate(PrivateBuffers(k));
    FromSized(k.privateKey, 32);
  }

  lemma PublicInjective(p: Primitives, k: PublicKey, l: PublicKey)
    requires Lawful(p.curve)
    requires OnCurve(p.curve, k.point) && PublicSizes(k) && OnCurve(p.curve, l.point) && PublicSizes(l)
    requires SerialisePublic(p, k) == SerialisePublic(p, l)
    ensures k == l
  {
    PublicBufferSizes(p, k);
    PublicBufferSizes(p, l);
    SliceConcatPublic(PublicBuffers(p, k));
    SliceConcatPublic(PublicBuffers(p, l));
    assert PublicBuffers(p, k) == PublicBuffers(p, l);
    CompressInjective(p.curve, k.point, l.point);
    Index32Injective(k.childIndex, l.childIndex);
    assert [k.depth][0] == [l.depth][0];
  }

  /** A private and a public key never serialise alike: byte 45 is 0 in the one and the sign
      byte 2 or 3 in the other. */
  lemma KindsDiffer(p: Primitives, k: PrivateKey, l: PublicKey)
    requires Lawful(p.curve) && ValidPrivate(p, k) && PrivateSizes(k) && OnCurve(p.curve, l.point) && PublicSizes(l)
    ensures SerialisePrivate(k) != SerialisePublic(p, l)
  {
    PrivateBufferSizes(p, k);
    PublicBufferSizes(p, l);
    SliceConcatPrivate(PrivateBuffers(k));
    SliceConcatPublic(PublicBuffers(p, l));
  }

  // ----- the format, byte by byte

  /** Which byte of the 78 means what, up to the key. */
  predicate Headed(data: seq<int>, version: seq<int>, depth: int, parentFingerPrint: seq<int>, childIndex: int, chainCode: seq<int>) {
    && |data| == 78
    && data[..4] == version && data[4] == depth && data[5..9] == parentFingerPrint
    && childIndex == data[9] * 0x100_0000 + data[10] * 0x1_0000 + data[11] * 0x100 + data[12]
    && data[13..45] == chainCode
  }

  lemma HeadFormat(b: Buffers, depth: Byte, childIndex: nat, rest: Buffer)
    requires Sizes(b, |b.key|) && b.depth == [depth] && b.childIndex == Index32(childIndex)
    requires childIndex < 0x1_0000_0000 && |rest| == 33
    ensures Headed(Head(b) + rest, b.version, depth, b.parentFingerPrint, childIndex, b.chainCode)
    ensures (Head(b) + rest)[45..] == rest
  {
    var data := Head(b) + rest;
    Index32Value(childIndex);
    assert data[..4] == b.version && data[4..5] == b.depth && data[5..9] == b.parentFingerPrint;
    assert data[9..13] == b.childIndex && data[13..45] == b.chainCode;
  }

  /** A private key is written with a zero byte before its 32 bytes. */
  lemma PrivateFormat(p: Primitives, k: PrivateKey)
    requires Lawful(p.curve) && ValidPrivate(p, k) && PrivateSizes(k)
    ensures var data := SerialisePrivate(k);
            && Headed(data, k.version, k.depth, k.parentFingerPrint, k.childIndex, k.chainCode)
            && data[45] == 0 && FromBuffer(data[46..]) == k.privateKey
  {
    PrivateBufferSizes(p, k);
    var b := PrivateBuffers(k);
    HeadFormat(b, k.depth, k.childIndex, [0] + b.key);
    assert SerialisePrivate(k) == Head(b) + ([0] + b.key);
    FromSized(k.privateKey, 32);
    assert SerialisePrivate(k)[46..] == b.key;
  }

  /** A public key with the parity of its point before x. */
  lemma PublicFormat(p: Primitives, k: PublicKey)
    requires Lawful(p.curve) && OnCurve(p.curve, k.point) && PublicSizes(k)
    ensures var data := SerialisePublic(p, k);
            && Headed(data, k.version, k.depth, k.parentFingerPrint, k.childIndex, k.chainCode)
            && data[45] == (if p.curve.odd(k.point) then 3 else 2) && FromBuffer(data[46..]) == p.curve.x(k.point)
  {
    PublicBufferSizes(p, k);
    var b := PublicBuffers(p, k);
    HeadFormat(b, k.depth, k.childIndex, b.key);
    CompressLayout(p.curve, k.point);
    assert SerialisePublic(p, k)[46..] == b.key[1..];
  }

  /** Data load as a private key exactly if there are 78 bytes of which the last 32 are a valid
      private key; byte 45 is not looked at. */
  lemma LoadPrivateExactly(p: Primitives, data: Buffer)
    ensures LoadPrivate(p, data).Success? <==> |data| == 78 && 0 < FromBuffer(data[46..]) < p.curve.order
    ensures LoadPrivate(p, data) == Failure(InvalidLength) <==> |data| != 78
    ensures LoadPrivate(p, data).Success? ==>
      LoadPrivate(p, data).value
      == Buffers(data[..4], data[4..5], data[5..9], data[9..13], data[13..45], data[46..])
  {
  }

  /** Data with the version of no private key load as a public key exactly if the last 33 of
      their 78 bytes decompress. */
  lemma LoadPublicExactly(p: Primitives, data: Buffer)
    requires p.curve.order > 0 && |data| == 78 && !p.isPrivateVersion(data[..4])
    ensures LoadPublic(p, data).Success?
       <==> (data[45] == 2 || data[45] == 3) && p.curve.fromX(data[45] == 3, FromBuffer(data[46..])).Some?
    ensures LoadPublic(p, data).Success? ==>
      LoadPublic(p, data).value
      == Buffers(data[..4], data[4..5], data[5..9], data[9..13], data[13..45], data[45..])
  {
    assert data[45..][1..] == data[46..];
  }

  /** The public half is written like the private key in bytes 4 to 44: only the version and the
      key change. */
  lemma NeuterFormat(p: Primitives, k: PrivateKey)
    requires Lawful(p.curve) && ValidPrivate(p, k) && PrivateSizes(k) && |p.publicVersion(k.version)| == 4
    ensures var private, public := SerialisePrivate(k), SerialisePublic(p, Neuter(p, k));
            && |private| == |public| == 78 && public[4..45] == private[4..45]
            && public[..4] == p.publicVersion(private[..4])
            && FromBuffer(public[46..]) == p.curve.x(Mul(p.curve, FromBuffer(private[46..])))
            && (public[45] == 3 <==> p.curve.odd(Mul(p.curve, FromBuffer(private[46..]))))
  {
    var b, c := PrivateBuffers(k), PublicBuffers(p, Neuter(p, k));
    PrivateFormat(p, k);
    PublicFormat(p, Neuter(p, k));
    PrivateBufferSizes(p, k);
    PublicBufferSizes(p, Neuter(p, k));
    SameMiddle(b, c, [0] + b.key, c.key);
    assert SerialisePrivate(k) == Head(b) + ([0] + b.key);
  }

  lemma SameMiddle(b: Buffers, c: Buffers, rest: Buffer, rest': Buffer)
    requires Sizes(b, |b.key|) && Sizes(c, |c.key|) && b.(version := c.version, key := c.key) == c
    ensures (Head(b) + rest)[4..45] == (Head(c) + rest')[4..45]
  {
    var middle := b.depth + b.parentFingerPrint + b.childIndex + b.chainCode;
    assert Head(b) == b.version + middle && Head(c) == c.version + middle;
    assert (b.version + middle + rest)[4..45] == middle;
    assert (c.version + middle + rest')[4..45] == middle;
  }
}
