/** Printing and parsing of Bitcoin Cash addresses: version byte and hash, regrouped into
    symbols, closed by a checksum that also covers the network prefix, in base 32. */
module CashAddress {
  import opened Wrappers
  import opened Text
  import opened Bytes
  import opened PolyMod
  import opened PolyModWords
  import ConvertBits
  import Base32
  import NetworkRegistry

  datatype AddressType = PubKeyHash | ScriptHash

  datatype Problem =
    | InvalidHashSize | MixedCase | InvalidFormat | InvalidCharacter | InvalidChecksum
    | ConversionRequiresPadding | InvalidType | NoSuchNetwork | NoPrefix

  /** What parsing returns; the network is what the registry has under the prefix. */
  datatype Info = Info(hashBuffer: Buffer, kind: AddressType, network: Option<NetworkRegistry.Network>)

  // ----- symbols as numbers and as bits

  function Symbols(data: seq<int>): (w: Word)
    ensures |w| == |data|
  {
    seq(|data|, i requires 0 <= i < |data| => (data[i] % 32) as Symbol)
  }

  function Numbers(w: Word): (data: seq<int>)
    ensures |data| == |w| && Base32.Encodable(data)
  {
    seq(|w|, i requires 0 <= i < |w| => w[i] as int)
  }

  lemma SymbolsOfNumbers(w: Word)
    ensures Symbols(Numbers(w)) == w
  {
  }

  lemma NumbersOfSymbols(data: seq<int>)
    requires Base32.Encodable(data)
    ensures Numbers(Symbols(data)) == data
  {
  }

  lemma SymbolsConcat(a: seq<int>, b: seq<int>)
    ensures Symbols(a + b) == Symbols(a) + Symbols(b)
  {
  }

  lemma EncodableInRange(data: seq<int>)
    ensures Base32.Encodable(data) <==> ConvertBits.InRange(data, 5)
  {
    assert ConvertBits.Power(5) == 32 by {
      assert ConvertBits.Power(3) == 8;
    }
  }

  lemma BytesInRange(data: Buffer)
    ensures ConvertBits.InRange(data, 8)
  {
    assert ConvertBits.Power(8) == 256 by {
      assert ConvertBits.Power(4) == 16;
      assert ConvertBits.Power(6) == 64;
    }
  }

  // ----- version byte

  function TypeBits(kind: AddressType): int {
    match kind
    case PubKeyHash => 0
    case ScriptHash => 8
  }

  /** The three low bits of the version for a hash of so many bits. */
  function HashSizeBits(bits: int): Option<int> {
    if bits == 160 then Some(0) else if bits == 192 then Some(1) else if bits == 224 then Some(2)
    else if bits == 256 then Some(3) else if bits == 320 then Some(4) else if bits == 384 then Some(5)
    else if bits == 448 then Some(6) else if bits == 512 then Some(7) else None
  }

  function HashSize(version: int): int {
    var size := version % 8;
    if size == 0 then 160 else if size == 1 then 192 else if size == 2 then 224 else if size == 3 then 256
    else if size == 4 then 320 else if size == 5 then 384 else if size == 6 then 448 else 512
  }

  /** Bits 3 to 6 of the version; bit 7 is not looked at. */
  function TypeOf(version: int): Option<AddressType> {
    var bits := version / 8 % 16;
    if bits == 0 then Some(PubKeyHash) else if bits == 1 then Some(ScriptHash) else None
  }

  // ----- checksums with a prefix

  function PrefixArray(prefix: string): (w: Word)
    ensures |w| == |prefix|
  {
    seq(|prefix|, i requires 0 <= i < |prefix| => ((prefix[i] as int) % 32) as Symbol)
  }

  function PrefixData(prefix: string): Word {
    PrefixArray(prefix) + [0]
  }

  predicate ValidChecksum(prefix: string, payload: seq<int>) {
    Checksum(PrefixData(prefix) + Symbols(payload)) == Zeros(8)
  }

  // ----- printing

  function Payload(prefix: string, version: int, hash: seq<int>): Option<seq<int>> {
    match ConvertBits.Convert([version] + hash, 8, 5, false)
    case Failure(_) => None
    case Success(data) => Some(data + Numbers(Checksum(PrefixData(prefix) + Symbols(data) + Zeros(8))))
  }

  /** The text of an address under a given prefix. */
  function PrintWith(prefix: string, kind: AddressType, hash: Buffer, stripPrefix: bool): Result<string, Problem> {
    match HashSizeBits(|hash| * 8)
    case None => Failure(InvalidHashSize)
    case Some(size) =>
      match Payload(prefix, TypeBits(kind) + size, hash)
      case None => Failure(ConversionRequiresPadding)
      case Some(payload) =>
        match Base32.Encode(payload)
        case None => Failure(InvalidCharacter)
        case Some(text) => Success(if stripPrefix then text else prefix + ":" + text)
  }

  /** The prefix that a network was registered with, if any. */
  function NetworkPrefix(n: NetworkRegistry.Network): Option<string> {
    FieldText(n.fields, "prefix")
  }

  function FieldText(fields: seq<NetworkRegistry.Field>, name: string): Option<string> {
    if fields == [] then None
    else if fields[0].name == name then
      match fields[0].value
      case Str(text) => Some(text)
      case _ => None
    else FieldText(fields[1..], name)
  }

  /** The text of an address, under the prefix of its own network, without which it throws. */
  function ToCashAddress(n: NetworkRegistry.Network, kind: AddressType, hash: Buffer, stripPrefix: bool): Result<string, Problem> {
    match NetworkPrefix(n)
    case None => Failure(NoPrefix)
    case Some(prefix) => PrintWith(prefix, kind, hash, stripPrefix)
  }

  // ----- parsing

  /** Buffer.from, which keeps the low eight bits of every number. */
  function BufferFrom(data: seq<int>): (b: Buffer)
    ensures |b| == |data|
  {
    seq(|data|, i requires 0 <= i < |data| => data[i] % 256)
  }

  /** ASCII case mapping. */
  function LowerChar(c: char): char {
    if 'A' <= c <= 'Z' then c - 'A' + 'a' else c
  }

  function UpperChar(c: char): char {
    if 'a' <= c <= 'z' then c - 'a' + 'A' else c
  }

  function Lower(s: string): (r: string)
    ensures |r| == |s|
  {
    seq(|s|, i requires 0 <= i < |s| => LowerChar(s[i]))
  }

  function Upper(s: string): (r: string)
    ensures |r| == |s|
  {
    seq(|s|, i requires 0 <= i < |s| => UpperChar(s[i]))
  }

  predicate HasSingleCase(s: string) {
    s == Lower(s) || s == Upper(s)
  }

  /** The prefix of the network registered under a name; reading it throws if there is none. */
  function PrefixOf(r: NetworkRegistry.Registry, name: string): Option<string> {
    match NetworkRegistry.Get(r, name)
    case None => None
    case Some(network) => NetworkPrefix(network)
  }

  const NET_NAMES: seq<string> := ["livenet", "testnet", "regtest"]

  /** The prefix that a payload without one was made for: the first that fits the checksum. */
  function Recover(r: NetworkRegistry.Registry, names: seq<string>, payload: seq<int>): Result<string, Problem> {
    if names == [] then Failure(InvalidChecksum)
    else
      match PrefixOf(r, names[0])
      case None => Failure(NoSuchNetwork)
      case Some(p) => if ValidChecksum(p, payload) then Success(p) else Recover(r, names[1..], payload)
  }

  /** JavaScript's slice(0, -8). */
  function DropChecksum(payload: seq<int>): seq<int> {
    if |payload| <= 8 then [] else payload[..|payload| - 8]
  }

  function DecodePayload(r: NetworkRegistry.Registry, prefix: string, payload: seq<int>): Result<Info, Problem> {
    match ConvertBits.Convert(DropChecksum(payload), 5, 8, true)
    case Failure(_) => Failure(ConversionRequiresPadding)
    case Success(bytes) =>
      if bytes == [] || HashSize(bytes[0]) != |bytes[1..]| * 8 then Failure(InvalidHashSize)
      else
        match TypeOf(bytes[0])
        case None => Failure(InvalidType)
        case Some(kind) => Success(Info(BufferFrom(bytes[1..]), kind, NetworkRegistry.Get(r, prefix)))
  }

  function DecodeLower(r: NetworkRegistry.Registry, address: string): Result<Info, Problem> {
    var pieces := Split(address, ':');
    if |pieces| > 2 then Failure(InvalidFormat)
    else
      var prefix := if |pieces| == 2 then pieces[0] else "";
      match Base32.Decode(Lower(pieces[|pieces| - 1]))
      case None => Failure(InvalidCharacter)
      case Some(payload) =>
        if prefix != "" then
          if ValidChecksum(prefix, payload) then DecodePayload(r, prefix, payload) else Failure(InvalidChecksum)
        else
          match Recover(r, NET_NAMES, payload)
          case Failure(problem) => Failure(problem)
          case Success(p) => DecodePayload(r, p, payload)
  }

  function Decode(r: NetworkRegistry.Registry, address: string): Result<Info, Problem> {
    if HasSingleCase(address) then DecodeLower(r, Lower(address)) else Failure(MixedCase)
  }

  // ----- case

  lemma CaseLaws(s: string)
    ensures Lower(Lower(s)) == Lower(s) && Upper(Upper(s)) == Upper(s) && Lower(Upper(s)) == Lower(s)
  {
  }

  /** Upper-case addresses are read like their lower-case form. */
  lemma DecodeUpper(r: NetworkRegistry.Registry, address: string)
    ensures Decode(r, Upper(address)) == Decode(r, Lower(address))
  {
    CaseLaws(address);
  }

  lemma CharsetCase(c: char)
    requires c in Base32.CHARSET_INVERSE_INDEX
    ensures LowerChar(c) == c && c != ':'
  {
  }

  lemma TextCase(text: string)
    requires Base32.Decodable(text)
    ensures Lower(text) == text && ':' !in text
  {
    forall i | 0 <= i < |text| ensures LowerChar(text[i]) == text[i] && text[i] != ':' {
      CharsetCase(text[i]);
    }
  }

  lemma LowerConcat(a: string, b: string)
    ensures Lower(a + ":" + b) == Lower(a) + ":" + Lower(b)
  {
  }

  /** A prefix as networks have it: not empty, in lower case, without the separator. */
  predicate ProperPrefix(prefix: string) {
    prefix != "" && Lower(prefix) == prefix && ':' !in prefix
  }

  // ----- what parsing does with a prefix and without one

  /** Parsing once the payload and its prefix are known. */
  function DecodeParts(r: NetworkRegistry.Registry, prefix: string, text: string): Result<Info, Problem> {
    match Base32.Decode(text)
    case None => Failure(InvalidCharacter)
    case Some(payload) =>
      if ValidChecksum(prefix, payload) then DecodePayload(r, prefix, payload) else Failure(InvalidChecksum)
  }

  lemma DecodePrefixed(r: NetworkRegistry.Registry, prefix: string, text: string)
    requires ProperPrefix(prefix) && Lower(text) == text && ':' !in text
    ensures Decode(r, prefix + ":" + text) == DecodeParts(r, prefix, text)
  {
    LowerConcat(prefix, text);
    SplitAt(prefix, ':', text);
    assert prefix + ":" + text == prefix + [':'] + text;
  }

  function DecodeBare(r: NetworkRegistry.Registry, text: string): Result<Info, Problem> {
    match Base32.Decode(text)
    case None => Failure(InvalidCharacter)
    case Some(payload) =>
      match Recover(r, NET_NAMES, payload)
      case Failure(problem) => Failure(problem)
      case Success(p) => DecodePayload(r, p, payload)
  }

  lemma DecodeStripped(r: NetworkRegistry.Registry, text: string)
    requires Lower(text) == text && ':' !in text
    ensures Decode(r, text) == DecodeBare(r, text)
  {
  }

  // ----- prefixes told apart by the checksum

  const LIVENET_PREFIX := "bitcoincash"
  const TESTNET_PREFIX := "bchtest"
  const REGTEST_PREFIX := "bchreg"

  /** The registry knows the three built-in networks under their names. */
  predicate KnowsBuiltIn(r: NetworkRegistry.Registry) {
    && PrefixOf(r, "livenet") == Some(LIVENET_PREFIX)
    && PrefixOf(r, "testnet") == Some(TESTNET_PREFIX)
    && PrefixOf(r, "regtest") == Some(REGTEST_PREFIX)
  }

  lemma ShiftOnly(c: Register, d: Symbol)
    requires c[0] == 0
    ensures Step(c, d) == c[1..] + [d]
  {
    TapsZero();
    XorZero(c[1..] + [d]);
  }

  /** The first seven symbols after the start are merely shifted in. */
  lemma {:induction false} RunShort(w: Word)
    requires |w| <= 7
    ensures Run(ONE, w) == (ONE + w)[|w|..]
  {
    if w != [] {
      var n := |w| - 1;
      RunShort(w[..n]);
      ShiftOnly(Run(ONE, w[..n]), w[n]);
      assert ONE + w == ONE + w[..n] + [w[n]];
    }
  }

  // The four steps in which symbols of "bitcoincash" are fed back.

  lemma FedBack1()
    ensures Step([1, 2, 9, 20, 3, 15, 9, 14], 3) == [17, 10, 13, 8, 22, 10, 29, 2]
  {
    var g: Register := [19, 3, 25, 11, 25, 3, 19, 1];
    assert Taps(1, 1) == g;
    assert Taps(1, 3) == g;
  }

  lemma FedBack17()
    ensures Step([17, 10, 13, 8, 22, 10, 29, 2], 1) == [26, 23, 22, 9, 20, 7, 18, 16]
  {
    var g: Register := [19, 3, 25, 11, 25, 3, 19, 1];
    assert Taps(17, 1) == g;
    assert Taps(17, 3) == g;
    assert Taps(17, 5) == [16, 26, 30, 31, 30, 26, 16, 17];
  }

  lemma FedBack26()
    ensures Step([26, 23, 22, 9, 20, 7, 18, 16], 19) == [14, 17, 2, 28, 12, 21, 9, 9]
  {
    var g: Register := [15, 6, 27, 22, 27, 6, 15, 2];
    assert Taps(26, 2) == g;
    assert Taps(26, 4) == [26, 30, 12, 28, 12, 30, 26, 10];
    assert Taps(26, 5) == [25, 7, 11, 8, 11, 7, 25, 26];
  }

  lemma FedBack14()
    ensures Step([14, 17, 2, 28, 12, 21, 9, 9], 8) == [21, 16, 15, 21, 6, 27, 13, 6]
  {
    assert Taps(14, 2) == [15, 6, 27, 22, 27, 6, 15, 2];
    assert Taps(14, 3) == [17, 10, 4, 19, 4, 10, 17, 6];
    assert Taps(14, 5) == [4, 18, 19, 25, 19, 18, 4, 14];
  }

  lemma RunSnoc(c: Register, w: Word, d: Symbol)
    ensures Run(c, w + [d]) == Step(Run(c, w), d)
  {
    assert (w + [d])[..|w|] == w;
  }

  lemma LivenetData()
    ensures PrefixData(LIVENET_PREFIX) == [2, 9, 20, 3, 15, 9, 14] + [3] + [1] + [19] + [8] + [0]
  {
  }

  lemma TestnetData()
    ensures PrefixData(TESTNET_PREFIX) == [2, 3, 8, 20, 5, 19, 20] + [0]
  {
  }

  lemma RegtestData()
    ensures PrefixData(REGTEST_PREFIX) == [2, 3, 8, 18, 5, 7, 0]
  {
  }

  lemma LivenetRun(w: Word)
    requires w == [2, 9, 20, 3, 15, 9, 14]
    ensures Run(ONE, w + [3] + [1] + [19] + [8] + [0])[7] == 21
  {
    RunShort(w);
    assert Run(ONE, w) == [1, 2, 9, 20, 3, 15, 9, 14];
    RunSnoc(ONE, w, 3);
    FedBack1();
    RunSnoc(ONE, w + [3], 1);
    FedBack17();
    RunSnoc(ONE, w + [3] + [1], 19);
    FedBack26();
    RunSnoc(ONE, w + [3] + [1] + [19], 8);
    FedBack14();
    RunSnoc(ONE, w + [3] + [1] + [19] + [8], 0);
    StepLow([21, 16, 15, 21, 6, 27, 13, 6], 0);
  }

  /** The three built-in prefixes leave different registers. */
  lemma LivenetRegister()
    ensures Run(ONE, PrefixData(LIVENET_PREFIX))[7] == 21
  {
    LivenetData();
    LivenetRun([2, 9, 20, 3, 15, 9, 14]);
  }

  lemma TestnetRegister()
    ensures Run(ONE, PrefixData(TESTNET_PREFIX))[7] == 1
  {
    TestnetData();
    var w: Word := [2, 3, 8, 20, 5, 19, 20];
    RunShort(w);
    RunSnoc(ONE, w, 0);
    StepLow(Run(ONE, w), 0);
  }

  lemma RegtestRegister()
    ensures Run(ONE, PrefixData(REGTEST_PREFIX))[7] == 0
  {
    RegtestData();
    RunShort([2, 3, 8, 18, 5, 7, 0]);
  }

  predicate BuiltInPrefix(prefix: string) {
    prefix == LIVENET_PREFIX || prefix == TESTNET_PREFIX || prefix == REGTEST_PREFIX
  }

  /** No payload is valid for two of the built-in prefixes. */
  lemma PrefixUnique(p: string, q: string, payload: seq<int>)
    requires BuiltInPrefix(p) && BuiltInPrefix(q)
    requires ValidChecksum(p, payload) && ValidChecksum(q, payload)
    ensures p == q
  {
    LivenetRegister();
    TestnetRegister();
    RegtestRegister();
    if p != q {
      PrefixesSeparated(PrefixData(p), PrefixData(q), Symbols(payload));
    }
  }

  lemma RecoverCases(r: NetworkRegistry.Registry, payload: seq<int>)
    requires KnowsBuiltIn(r)
    ensures Recover(r, NET_NAMES, payload)
         == if ValidChecksum(LIVENET_PREFIX, payload) then Success(LIVENET_PREFIX)
            else if ValidChecksum(TESTNET_PREFIX, payload) then Success(TESTNET_PREFIX)
            else if ValidChecksum(REGTEST_PREFIX, payload) then Success(REGTEST_PREFIX)
            else Failure(InvalidChecksum)
  {
    assert NET_NAMES[1..] == ["testnet", "regtest"];
    assert NET_NAMES[1..][1..] == ["regtest"];
    assert Recover(r, NET_NAMES[1..][1..], payload)
        == if ValidChecksum(REGTEST_PREFIX, payload) then Success(REGTEST_PREFIX) else Failure(InvalidChecksum);
  }

  /** A payload has a built-in prefix recovered exactly if it is valid for that prefix. */
  lemma RecoverPrefix(r: NetworkRegistry.Registry, prefix: string, payload: seq<int>)
    requires KnowsBuiltIn(r) && BuiltInPrefix(prefix)
    ensures ValidChecksum(prefix, payload) <==> Recover(r, NET_NAMES, payload) == Success(prefix)
  {
    RecoverCases(r, payload);
    if ValidChecksum(prefix, payload) && ValidChecksum(LIVENET_PREFIX, payload) {
      PrefixUnique(LIVENET_PREFIX, prefix, payload);
    } else if ValidChecksum(prefix, payload) && ValidChecksum(TESTNET_PREFIX, payload) {
      PrefixUnique(TESTNET_PREFIX, prefix, payload);
    }
  }

  /** An address of a built-in network parses to the same result without its prefix. */
  lemma StrippedLikePrefixed(r: NetworkRegistry.Registry, prefix: string, text: string)
    requires KnowsBuiltIn(r) && BuiltInPrefix(prefix)
    requires Lower(text) == text && ':' !in text && Decode(r, prefix + ":" + text).Success?
    ensures Decode(r, text) == Decode(r, prefix + ":" + text)
  {
    BuiltInProper(prefix);
    DecodePrefixed(r, prefix, text);
    DecodeStripped(r, text);
    RecoverPrefix(r, prefix, Base32.Decode(text).value);
  }

  lemma BuiltInProper(prefix: string)
    requires BuiltInPrefix(prefix)
    ensures ProperPrefix(prefix)
  {
  }

  // ----- round trips

  lemma VersionRoundTrip(kind: AddressType, bits: int)
    requires HashSizeBits(bits).Some?
    ensures var version := TypeBits(kind) + HashSizeBits(bits).value;
            0 <= version < 16 && HashSize(version) == bits && TypeOf(version) == Some(kind)
  {
  }

  lemma VersionOfParts(version: int, kind: AddressType)
    requires 0 <= version < 256 && TypeOf(version) == Some(kind)
    ensures HashSizeBits(HashSize(version)) == Some(version % 8)
    ensures TypeBits(kind) + version % 8 == version % 128
  {
  }

  /** The payload printed for a version and hash is valid and regroups to both of them. */
  lemma PayloadRoundTrip(prefix: string, version: Byte, hash: Buffer)
    ensures Payload(prefix, version, hash).Some?
    ensures var payload := Payload(prefix, version, hash).value;
            && Base32.Encodable(payload)
            && ValidChecksum(prefix, payload)
            && ConvertBits.Convert(DropChecksum(payload), 5, 8, true) == Success([version] + hash)
  {
    BytesInRange([version] + hash);
    ConvertBits.SplitThenJoin([version] + hash, 8, 5);
    var data := PayloadSymbols([version] + hash);
    var w := PrefixData(prefix) + Symbols(data);
    var tail := Checksum(w + Zeros(8));
    ChecksumComplete(w, tail);
    SymbolsConcat(data, Numbers(tail));
    SymbolsOfNumbers(tail);
    assert PrefixData(prefix) + Symbols(data + Numbers(tail)) == w + tail;
    assert DropChecksum(data + Numbers(tail)) == data;
  }

  lemma PayloadSymbols(bytes: Buffer) returns (data: seq<int>)
    ensures ConvertBits.Convert(bytes, 8, 5, false) == Success(data) && Base32.Encodable(data)
  {
    var padding;
    BytesInRange(bytes);
    data, padding := ConvertBits.PaddedConversion(bytes, 8, 5);
    EncodableInRange(data);
  }

  lemma PrintedAs(prefix: string, kind: AddressType, hash: Buffer, payload: seq<int>)
    requires HashSizeBits(|hash| * 8).Some? && Base32.Encodable(payload)
    requires Payload(prefix, TypeBits(kind) + HashSizeBits(|hash| * 8).value, hash) == Some(payload)
    ensures PrintWith(prefix, kind, hash, false) == Success(prefix + ":" + Base32.Encode(payload).value)
    ensures PrintWith(prefix, kind, hash, true) == Success(Base32.Encode(payload).value)
  {
  }

  lemma BufferUnchanged(b: seq<int>)
    requires forall i :: 0 <= i < |b| ==> 0 <= b[i] < 256
    ensures BufferFrom(b) == b
  {
  }

  lemma ParsedAs(r: NetworkRegistry.Registry, prefix: string, version: int, hash: Buffer, payload: seq<int>)
    requires Base32.Encodable(payload) && ValidChecksum(prefix, payload)
    requires ConvertBits.Convert(DropChecksum(payload), 5, 8, true) == Success([version] + hash)
    requires HashSize(version) == |hash| * 8 && TypeOf(version).Some?
    ensures DecodeParts(r, prefix, Base32.Encode(payload).value)
         == Success(Info(hash, TypeOf(version).value, NetworkRegistry.Get(r, prefix)))
  {
    Base32.DecodeEncode(payload);
    assert ([version] + hash)[1..] == hash;
    BufferUnchanged(hash);
  }

  /** The payload text that is printed, and what it means. */
  lemma PrintedText(r: NetworkRegistry.Registry, prefix: string, kind: AddressType, hash: Buffer) returns (text: string)
    requires HashSizeBits(|hash| * 8).Some?
    ensures PrintWith(prefix, kind, hash, false) == Success(prefix + ":" + text)
    ensures PrintWith(prefix, kind, hash, true) == Success(text)
    ensures Base32.Decodable(text)
    ensures DecodeParts(r, prefix, text) == Success(Info(hash, kind, NetworkRegistry.Get(r, prefix)))
  {
    var version := TypeBits(kind) + HashSizeBits(|hash| * 8).value;
    VersionRoundTrip(kind, |hash| * 8);
    PayloadRoundTrip(prefix, version, hash);
    var payload := Payload(prefix, version, hash).value;
    Base32.DecodeEncode(payload);
    PrintedAs(prefix, kind, hash, payload);
    ParsedAs(r, prefix, version, hash, payload);
    text := Base32.Encode(payload).value;
  }

  /** Printing succeeds for every type and every one of the eight hash sizes on a network with
      a proper prefix, and parsing the text, with its prefix or, if it is a built-in one,
      without it, gives hash and type back, on the network found under the prefix. */
  lemma DecodeEncode(r: NetworkRegistry.Registry, n: NetworkRegistry.Network, kind: AddressType, hash: Buffer)
    requires HashSizeBits(|hash| * 8).Some? && NetworkPrefix(n).Some? && ProperPrefix(NetworkPrefix(n).value)
    ensures var prefix := NetworkPrefix(n).value;
            var info := Info(hash, kind, NetworkRegistry.Get(r, prefix));
            var printed := ToCashAddress(n, kind, hash, false);
            var stripped := ToCashAddress(n, kind, hash, true);
            && printed.Success? && Decode(r, printed.value) == Success(info)
            && stripped.Success?
            && (KnowsBuiltIn(r) && BuiltInPrefix(prefix) ==> Decode(r, stripped.value) == Success(info))
  {
    var prefix := NetworkPrefix(n).value;
    var text := PrintedText(r, prefix, kind, hash);
    TextCase(text);
    DecodePrefixed(r, prefix, text);
    if KnowsBuiltIn(r) && BuiltInPrefix(prefix) {
      StrippedLikePrefixed(r, prefix, text);
    }
  }

  lemma NotPrinted(prefix: string, kind: AddressType, hash: Buffer, stripPrefix: bool)
    requires HashSizeBits(|hash| * 8).None?
    ensures PrintWith(prefix, kind, hash, stripPrefix) == Failure(InvalidHashSize)
  {
  }

  lemma PrintWithSucceeds(prefix: string, kind: AddressType, hash: Buffer, stripPrefix: bool)
    requires HashSizeBits(|hash| * 8).Some?
    ensures PrintWith(prefix, kind, hash, stripPrefix).Success?
  {
    var version := TypeBits(kind) + HashSizeBits(|hash| * 8).value;
    VersionRoundTrip(kind, |hash| * 8);
    PayloadRoundTrip(prefix, version, hash);
    PrintedAs(prefix, kind, hash, Payload(prefix, version, hash).value);
  }

  /** Nothing but a network without a prefix, or the length of the hash, can keep an address
      from being printed, in this order. */
  lemma PrintSucceeds(n: NetworkRegistry.Network, kind: AddressType, hash: Buffer, stripPrefix: bool)
    ensures ToCashAddress(n, kind, hash, stripPrefix).Success? <==> NetworkPrefix(n).Some? && HashSizeBits(|hash| * 8).Some?
    ensures ToCashAddress(n, kind, hash, stripPrefix).Failure? ==>
      ToCashAddress(n, kind, hash, stripPrefix) == Failure(if NetworkPrefix(n).None? then NoPrefix else InvalidHashSize)
  {
    if NetworkPrefix(n).Some? {
      if HashSizeBits(|hash| * 8).Some? {
        PrintWithSucceeds(NetworkPrefix(n).value, kind, hash, stripPrefix);
      } else {
        NotPrinted(NetworkPrefix(n).value, kind, hash, stripPrefix);
      }
    }
  }

  // ----- what is accepted

  lemma TopBit(n: int, k: nat)
    requires 0 <= n < ConvertBits.Power(k + 1)
    ensures ConvertBits.LowBits(n, k + 1)[0] <==> n >= ConvertBits.Power(k)
  {
    var p := ConvertBits.Power(k);
    ConvertBits.LowBitsSplit(n, 1, k);
    if n >= p {
      ConvertBits.ModuloUnique(n, p, 1, n - p);
    } else {
      ConvertBits.ModuloUnique(n, p, 0, n);
    }
    assert ConvertBits.LowBits(n / p, 1) == [n / p % 2 == 1] by {
      assert ConvertBits.LowBits(n / p / 2, 0) == [];
    }
  }

  lemma FirstBit(data: seq<int>, k: nat)
    requires data != [] && ConvertBits.InRange(data, k + 1)
    ensures ConvertBits.AllBits(data, k + 1) != []
    ensures ConvertBits.AllBits(data, k + 1)[0] <==> data[0] >= ConvertBits.Power(k)
  {
    TopBit(data[0], k);
  }

  lemma SameFirstBit(data: seq<int>, bytes: seq<int>)
    requires bytes != [] && ConvertBits.Convert(data, 5, 8, true) == Success(bytes)
    ensures ConvertBits.InRange(bytes, 8) && data != []
    ensures ConvertBits.AllBits(bytes, 8) != [] && ConvertBits.AllBits(data, 5) != []
    ensures ConvertBits.AllBits(bytes, 8)[0] == ConvertBits.AllBits(data, 5)[0]
  {
    var b := ConvertBits.AllBits(data, 5);
    ConvertBits.RegroupSpells(b, 8);
    ConvertBits.RegroupInRange(b, 8);
  }

  /** The first symbol of a payload is small exactly if the version's top bit is clear. */
  lemma VersionTopBit(data: seq<int>, bytes: seq<int>)
    requires ConvertBits.InRange(data, 5) && bytes != []
    requires ConvertBits.Convert(data, 5, 8, true) == Success(bytes)
    ensures ConvertBits.InRange(bytes, 8) && data != []
    ensures data[0] < 16 <==> bytes[0] < 128
  {
    SameFirstBit(data, bytes);
    FirstBit(bytes, 7);
    FirstBit(data, 4);
    Powers();
  }

  lemma Powers()
    ensures ConvertBits.Power(4) == 16 && ConvertBits.Power(7) == 128 && ConvertBits.Power(8) == 256
  {
    assert ConvertBits.Power(2) == 4;
    assert ConvertBits.Power(6) == 64;
  }

  lemma InRangeBytes(bytes: seq<int>)
    requires ConvertBits.InRange(bytes, 8)
    ensures forall i :: 0 <= i < |bytes| ==> 0 <= bytes[i] < 256
  {
    Powers();
  }

  /** The bytes that a payload spells fit a buffer, which therefore changes none of them. */
  lemma HashIsBytes(data: seq<int>, bytes: seq<int>)
    requires Base32.Encodable(data) && bytes != [] && ConvertBits.Convert(data, 5, 8, true) == Success(bytes)
    ensures 0 <= bytes[0] < 256 && BufferFrom(bytes[1..]) == bytes[1..]
    ensures data != [] && (data[0] < 16 <==> bytes[0] < 128)
  {
    EncodableInRange(data);
    VersionTopBit(data, bytes);
    InRangeBytes(bytes);
    BufferUnchanged(bytes[1..]);
  }

  lemma AcceptedParts(r: NetworkRegistry.Registry, prefix: string, text: string)
    requires DecodeParts(r, prefix, text).Success?
    ensures Base32.Decodable(text) && |text| > 8
    ensures var payload := Base32.Decode(text).value;
            var info := DecodeParts(r, prefix, text).value;
            var bytes := ConvertBits.Convert(DropChecksum(payload), 5, 8, true);
            && ValidChecksum(prefix, payload)
            && bytes.Success? && bytes.value != [] && info.hashBuffer == BufferFrom(bytes.value[1..])
            && HashSize(bytes.value[0]) == |info.hashBuffer| * 8 && TypeOf(bytes.value[0]) == Some(info.kind)
            && info.network == NetworkRegistry.Get(r, prefix)
  {
    ConvertEmpty();
  }

  /** Everything that a successful parse of a prefixed address has checked. */
  lemma Accepted(r: NetworkRegistry.Registry, prefix: string, text: string)
    requires ProperPrefix(prefix) && Lower(text) == text && ':' !in text
    requires Decode(r, prefix + ":" + text).Success?
    ensures Base32.Decodable(text) && |text| > 8
    ensures var payload := Base32.Decode(text).value;
            var info := Decode(r, prefix + ":" + text).value;
            var bytes := ConvertBits.Convert(DropChecksum(payload), 5, 8, true);
            && ValidChecksum(prefix, payload)
            && bytes.Success? && bytes.value != [] && info.hashBuffer == bytes.value[1..]
            && HashSize(bytes.value[0]) == |info.hashBuffer| * 8 && TypeOf(bytes.value[0]) == Some(info.kind)
            && info.network == NetworkRegistry.Get(r, prefix)
  {
    DecodePrefixed(r, prefix, text);
    AcceptedParts(r, prefix, text);
    Base32.EncodeDecode(text);
    var data := DropChecksum(Base32.Decode(text).value);
    HashIsBytes(data, ConvertBits.Convert(data, 5, 8, true).value);
  }

  lemma ConvertEmpty()
    ensures ConvertBits.Convert([], 5, 8, true) == Success([])
  {
  }

  /** A payload is determined by its data and its prefix: only one checksum fits. */
  lemma ChecksumDetermined(prefix: string, payload: seq<int>)
    requires |payload| > 8 && Base32.Encodable(payload)
    ensures var data := DropChecksum(payload);
            ValidChecksum(prefix, payload)
            <==> payload == data + Numbers(Checksum(PrefixData(prefix) + Symbols(data) + Zeros(8)))
  {
    var data, tail := DropChecksum(payload), payload[|payload| - 8..];
    var w := PrefixData(prefix) + Symbols(data);
    assert payload == data + tail;
    SymbolsConcat(data, tail);
    assert PrefixData(prefix) + Symbols(payload) == w + Symbols(tail);
    ChecksumComplete(w, Symbols(tail));
    NumbersOfSymbols(tail);
    SymbolsOfNumbers(Checksum(w + Zeros(8)));
    assert payload[|data|..] == tail;
    assert (data + Numbers(Checksum(w + Zeros(8))))[|data|..] == Numbers(Checksum(w + Zeros(8)));
  }

  /** Under the prefix it was parsed with, what was parsed is spelled as it was parsed exactly
      when the first payload character stands for less than 16. */
  lemma RespelledAsParsed(r: NetworkRegistry.Registry, prefix: string, text: string)
    requires ProperPrefix(prefix) && Lower(text) == text && ':' !in text
    requires Decode(r, prefix + ":" + text).Success?
    ensures Base32.Decodable(text) && text != []
    ensures var info := Decode(r, prefix + ":" + text).value;
            (PrintWith(prefix, info.kind, info.hashBuffer, false) == Success(prefix + ":" + text)
             <==> Base32.CHARSET_INVERSE_INDEX[text[0]] < 16)
  {
    var info := Decode(r, prefix + ":" + text).value;
    Accepted(r, prefix, text);
    var payload := Base32.Decode(text).value;
    Base32.EncodeDecode(text);
    var bytes := ConvertBits.Convert(DropChecksum(payload), 5, 8, true).value;
    HashIsBytes(DropChecksum(payload), bytes);
    assert bytes == [bytes[0]] + info.hashBuffer;
    if bytes[0] < 128 {
      SameSpelling(prefix, text, info.hashBuffer, bytes[0]);
    } else {
      OtherSpelling(prefix, text, info.hashBuffer, bytes[0]);
    }
  }

  lemma PrintedParts(prefix: string, kind: AddressType, hash: Buffer) returns (text: string)
    requires PrintWith(prefix, kind, hash, false).Success?
    ensures PrintWith(prefix, kind, hash, false) == Success(prefix + ":" + text) && Base32.Decodable(text) && ':' !in text
  {
    var version := TypeBits(kind) + HashSizeBits(|hash| * 8).value;
    VersionRoundTrip(kind, |hash| * 8);
    PayloadRoundTrip(prefix, version, hash);
    var payload := Payload(prefix, version, hash).value;
    PrintedAs(prefix, kind, hash, payload);
    text := Base32.Encode(payload).value;
    Base32.DecodeEncode(payload);
    TextCase(text);
  }

  /** A printed text is under the prefix it was printed with and no other. */
  lemma OtherPrefixPrinted(prefix: string, other: string, text: string, kind: AddressType, hash: Buffer)
    requires other != prefix && ':' !in text
    ensures PrintWith(other, kind, hash, false) != Success(prefix + ":" + text)
  {
    if PrintWith(other, kind, hash, false) == Success(prefix + ":" + text) {
      var tail := PrintedParts(other, kind, hash);
      LastPieceUnique(other, tail, prefix, text, ':');
    }
  }

  /** Printing what was parsed gives the parsed text back exactly when the first payload
      character stands for less than 16, because the top bit of the version is never checked,
      and the text has the prefix of its network, because any other value of the network's
      fields is accepted in its place. */
  lemma EncodeDecode(r: NetworkRegistry.Registry, n: NetworkRegistry.Network, prefix: string, text: string)
    requires ProperPrefix(prefix) && Lower(text) == text && ':' !in text
    requires Decode(r, prefix + ":" + text).Success? && Decode(r, prefix + ":" + text).value.network == Some(n)
    ensures Base32.Decodable(text) && text != []
    ensures var info := Decode(r, prefix + ":" + text).value;
            (ToCashAddress(n, info.kind, info.hashBuffer, false) == Success(prefix + ":" + text)
             <==> Base32.CHARSET_INVERSE_INDEX[text[0]] < 16 && NetworkPrefix(n) == Some(prefix))
  {
    var info := Decode(r, prefix + ":" + text).value;
    RespelledAsParsed(r, prefix, text);
    if NetworkPrefix(n).Some? && NetworkPrefix(n).value != prefix {
      OtherPrefixPrinted(prefix, NetworkPrefix(n).value, text, info.kind, info.hashBuffer);
    }
  }

  lemma SameSpelling(prefix: string, text: string, hash: Buffer, version: int)
    requires Base32.Decodable(text) && |text| > 8 && 0 <= version < 128
    requires ValidChecksum(prefix, Base32.Decode(text).value)
    requires ConvertBits.Convert(DropChecksum(Base32.Decode(text).value), 5, 8, true) == Success([version] + hash)
    requires HashSize(version) == |hash| * 8 && TypeOf(version).Some?
    ensures PrintWith(prefix, TypeOf(version).value, hash, false) == Success(prefix + ":" + text)
  {
    Base32.EncodeDecode(text);
    PayloadDetermined(prefix, Base32.Decode(text).value, version, hash);
    SpelledAsPrinted(prefix, text, Base32.Decode(text).value, hash, version);
  }

  lemma VersionBelow(version: int, kind: AddressType)
    requires 0 <= version < 128 && TypeOf(version) == Some(kind)
    ensures HashSizeBits(HashSize(version)).Some? && TypeBits(kind) + HashSizeBits(HashSize(version)).value == version
  {
    VersionOfParts(version, kind);
  }

  lemma SpelledAsPrinted(prefix: string, text: string, payload: seq<int>, hash: Buffer, version: int)
    requires Base32.Encodable(payload) && Base32.Encode(payload) == Some(text) && 0 <= version < 128
    requires Payload(prefix, version, hash) == Some(payload)
    requires HashSize(version) == |hash| * 8 && TypeOf(version).Some?
    ensures PrintWith(prefix, TypeOf(version).value, hash, false) == Success(prefix + ":" + text)
  {
    VersionBelow(version, TypeOf(version).value);
    PrintedAs(prefix, TypeOf(version).value, hash, payload);
  }

  lemma PayloadDetermined(prefix: string, payload: seq<int>, version: int, hash: seq<int>)
    requires |payload| > 8 && Base32.Encodable(payload) && ValidChecksum(prefix, payload)
    requires ConvertBits.Convert(DropChecksum(payload), 5, 8, true) == Success([version] + hash)
    ensures Payload(prefix, version, hash) == Some(payload)
  {
    EncodableInRange(DropChecksum(payload));
    ConvertBits.JoinThenSplit(DropChecksum(payload), 5, 8);
    ChecksumDetermined(prefix, payload);
  }

  lemma OtherSpelling(prefix: string, text: string, hash: Buffer, version: int)
    requires Base32.Decodable(text) && 128 <= version < 256
    requires ConvertBits.Convert(DropChecksum(Base32.Decode(text).value), 5, 8, true) == Success([version] + hash)
    requires HashSize(version) == |hash| * 8 && TypeOf(version).Some?
    ensures PrintWith(prefix, TypeOf(version).value, hash, false) != Success(prefix + ":" + text)
  {
    PrintedPayload(prefix, text, hash, version);
    PayloadRoundTrip(prefix, version % 128, hash);
    assert ([version % 128] + hash)[0] != ([version] + hash)[0];
  }

  /** A text is what gets printed exactly if its payload is. */
  lemma PrintedPayload(prefix: string, text: string, hash: Buffer, version: int)
    requires Base32.Decodable(text) && 0 <= version < 256
    requires HashSize(version) == |hash| * 8 && TypeOf(version).Some?
    ensures PrintWith(prefix, TypeOf(version).value, hash, false) == Success(prefix + ":" + text)
       <==> Payload(prefix, version % 128, hash) == Some(Base32.Decode(text).value)
  {
    VersionOfParts(version, TypeOf(version).value);
    PayloadRoundTrip(prefix, version % 128, hash);
    var payload := Payload(prefix, version % 128, hash).value;
    Base32.DecodeEncode(payload);
    Base32.EncodeDecode(text);
    SameTail(prefix + ":", Base32.Encode(payload).value, text);
  }

  lemma SameTail(head: string, one: string, other: string)
    ensures head + one == head + other <==> one == other
  {
    assert (head + one)[|head|..] == one && (head + other)[|head|..] == other;
  }

  function VersionOf(kind: AddressType, hash: Buffer): (version: Byte)
    requires HashSizeBits(|hash| * 8).Some?
    ensures version < 16
  {
    TypeBits(kind) + HashSizeBits(|hash| * 8).value
  }

  lemma VersionCases(version: int, kind: AddressType, hash: Buffer)
    requires HashSizeBits(|hash| * 8).Some? && 0 <= version < 256
    ensures HashSize(version) == |hash| * 8 && TypeOf(version) == Some(kind)
       <==> version == VersionOf(kind, hash) || version == VersionOf(kind, hash) + 128
  {
    VersionRoundTrip(kind, |hash| * 8);
    if HashSize(version) == |hash| * 8 && TypeOf(version) == Some(kind) {
      VersionOfParts(version, kind);
    }
  }

  /** The text is the base-32 form of the payload for a version and a hash. */
  predicate Spells(prefix: string, version: Byte, hash: Buffer, text: string) {
    Payload(prefix, version, hash).Some? && Base32.Decode(text) == Payload(prefix, version, hash)
  }

  lemma SpellsAccepted(r: NetworkRegistry.Registry, prefix: string, version: Byte, hash: Buffer, text: string)
    requires ProperPrefix(prefix) && Lower(text) == text && ':' !in text && Spells(prefix, version, hash, text)
    requires HashSize(version) == |hash| * 8 && TypeOf(version).Some?
    ensures Decode(r, prefix + ":" + text) == Success(Info(hash, TypeOf(version).value, NetworkRegistry.Get(r, prefix)))
  {
    PayloadRoundTrip(prefix, version, hash);
    Base32.EncodeDecode(text);
    ParsedAs(r, prefix, version, hash, Base32.Decode(text).value);
    DecodePrefixed(r, prefix, text);
  }

  lemma AcceptedSpells(r: NetworkRegistry.Registry, prefix: string, text: string) returns (version: Byte)
    requires ProperPrefix(prefix) && Lower(text) == text && ':' !in text
    requires Decode(r, prefix + ":" + text).Success?
    ensures var info := Decode(r, prefix + ":" + text).value;
            && Spells(prefix, version, info.hashBuffer, text)
            && HashSize(version) == |info.hashBuffer| * 8 && TypeOf(version) == Some(info.kind)
            && info.network == NetworkRegistry.Get(r, prefix)
  {
    Accepted(r, prefix, text);
    var payload := Base32.Decode(text).value;
    Base32.EncodeDecode(text);
    var bytes := ConvertBits.Convert(DropChecksum(payload), 5, 8, true).value;
    HashIsBytes(DropChecksum(payload), bytes);
    version := bytes[0];
    assert bytes == [version] + bytes[1..];
    PayloadDetermined(prefix, payload, version, bytes[1..]);
  }

  predicate OneOfTwo(prefix: string, kind: AddressType, hash: Buffer, text: string)
    requires HashSizeBits(|hash| * 8).Some?
  {
    Spells(prefix, VersionOf(kind, hash), hash, text) || Spells(prefix, VersionOf(kind, hash) + 128, hash, text)
  }

  lemma OneOfTwoAccepted(r: NetworkRegistry.Registry, prefix: string, kind: AddressType, hash: Buffer, text: string)
    requires HashSizeBits(|hash| * 8).Some? && ProperPrefix(prefix) && Lower(text) == text && ':' !in text
    requires OneOfTwo(prefix, kind, hash, text)
    ensures Decode(r, prefix + ":" + text) == Success(Info(hash, kind, NetworkRegistry.Get(r, prefix)))
  {
    var version: Byte :=
      if Spells(prefix, VersionOf(kind, hash), hash, text) then VersionOf(kind, hash) else VersionOf(kind, hash) + 128;
    VersionCases(version, kind, hash);
    SpellsAccepted(r, prefix, version, hash, text);
  }

  lemma SpellsOneOfTwo(prefix: string, kind: AddressType, hash: Buffer, version: Byte, text: string)
    requires Spells(prefix, version, hash, text) && HashSize(version) == |hash| * 8 && TypeOf(version) == Some(kind)
    ensures HashSizeBits(|hash| * 8).Some? && OneOfTwo(prefix, kind, hash, text)
  {
    VersionOfParts(version, kind);
    VersionCases(version, kind, hash);
    if version != VersionOf(kind, hash) {
      assert Spells(prefix, VersionOf(kind, hash) + 128, hash, text);
    }
  }

  lemma AcceptedIsOneOfTwo(r: NetworkRegistry.Registry, prefix: string, text: string)
    requires ProperPrefix(prefix) && Lower(text) == text && ':' !in text && Decode(r, prefix + ":" + text).Success?
    ensures var info := Decode(r, prefix + ":" + text).value;
            && HashSizeBits(|info.hashBuffer| * 8).Some? && info.network == NetworkRegistry.Get(r, prefix)
            && OneOfTwo(prefix, info.kind, info.hashBuffer, text)
  {
    var info := Decode(r, prefix + ":" + text).value;
    var version := AcceptedSpells(r, prefix, text);
    SpellsOneOfTwo(prefix, info.kind, info.hashBuffer, version, text);
  }

  /** The prefixed texts that mean an address: the prefix may be anything that finds its
      network, and the payload one of exactly two, of which the printed one is the first. */
  lemma TwoSpellings(r: NetworkRegistry.Registry, info: Info, prefix: string, text: string)
    requires HashSizeBits(|info.hashBuffer| * 8).Some? && ProperPrefix(prefix) && Lower(text) == text && ':' !in text
    ensures Decode(r, prefix + ":" + text) == Success(info)
       <==> NetworkRegistry.Get(r, prefix) == info.network && OneOfTwo(prefix, info.kind, info.hashBuffer, text)
  {
    if OneOfTwo(prefix, info.kind, info.hashBuffer, text) {
      OneOfTwoAccepted(r, prefix, info.kind, info.hashBuffer, text);
    } else if Decode(r, prefix + ":" + text) == Success(info) {
      AcceptedIsOneOfTwo(r, prefix, text);
    }
  }

  lemma FirstSpellingPrinted(prefix: string, kind: AddressType, hash: Buffer, text: string)
    requires HashSizeBits(|hash| * 8).Some?
    ensures Spells(prefix, VersionOf(kind, hash), hash, text) <==> PrintWith(prefix, kind, hash, true) == Success(text)
  {
    PayloadRoundTrip(prefix, VersionOf(kind, hash), hash);
    var payload := Payload(prefix, VersionOf(kind, hash), hash).value;
    PrintedAs(prefix, kind, hash, payload);
    Base32.DecodeEncode(payload);
    if Base32.Decodable(text) {
      Base32.EncodeDecode(text);
    }
  }

  lemma SpellingsDiffer(prefix: string, version: Byte, hash: Buffer, text: string, other: string)
    requires version < 128 && Spells(prefix, version, hash, text) && Spells(prefix, version + 128, hash, other)
    ensures text != other
  {
    PayloadRoundTrip(prefix, version, hash);
    PayloadRoundTrip(prefix, version + 128, hash);
    assert ([version] + hash)[0] != ([version + 128] + hash)[0];
  }

  lemma BehindDetected(head: Word, u: Word, v: Word, at: nat)
    requires |u| == |v| && u != v
    requires forall k :: 0 <= k < |u| && !(at <= k < at + 8) ==> u[k] == v[k]
    ensures Checksum(head + u) != Checksum(head + v)
  {
    assert (head + u)[|head|..] == u && (head + v)[|head|..] == v;
    BurstDetected(head + u, head + v, |head| + at);
  }

  lemma DataDetected(prefix: string, p: seq<int>, q: seq<int>, at: nat)
    requires Base32.Encodable(p) && Base32.Encodable(q) && |p| == |q| && p != q
    requires forall k :: 0 <= k < |p| && !(at <= k < at + 8) ==> p[k] == q[k]
    ensures !(ValidChecksum(prefix, p) && ValidChecksum(prefix, q))
  {
    NumbersOfSymbols(p);
    NumbersOfSymbols(q);
    BehindDetected(PrefixData(prefix), Symbols(p), Symbols(q), at);
  }

  /** Of two payloads of equal length that differ, and only within eight neighbouring
      characters, at most one is accepted under a prefix. */
  lemma TypoDetected(r: NetworkRegistry.Registry, prefix: string, text: string, typo: string, at: nat)
    requires ProperPrefix(prefix)
    requires Lower(text) == text && ':' !in text && Lower(typo) == typo && ':' !in typo
    requires |text| == |typo| && text != typo
    requires forall k :: 0 <= k < |text| && !(at <= k < at + 8) ==> text[k] == typo[k]
    requires Decode(r, prefix + ":" + text).Success?
    ensures Decode(r, prefix + ":" + typo).Failure?
  {
    Accepted(r, prefix, text);
    Base32.EncodeDecode(text);
    DecodePrefixed(r, prefix, typo);
    if Base32.Decodable(typo) {
      Base32.EncodeDecode(typo);
      DataDetected(prefix, Base32.Decode(text).value, Base32.Decode(typo).value, at);
    }
  }

  // ----- the code itself

  method PrefixToArray(prefix: string) returns (result: Word)
    ensures result == PrefixArray(prefix)
  {
    result := [];
    for i := 0 to |prefix|
      invariant result == PrefixArray(prefix)[..i]
    {
      result := result + [((prefix[i] as int) % 32) as Symbol];
    }
  }

  method PrintPayload(prefix: string, version: int, hash: Buffer) returns (payload: Option<seq<int>>)
    ensures payload == Payload(prefix, version, hash)
  {
    var prefixArray := PrefixToArray(prefix);
    var prefixData := prefixArray + [0];
    var converted := ConvertBits.ConvertBits([version] + hash, 8, 5, false);
    if converted.Failure? {
      return None;
    }
    var payloadData := converted.value;
    var checksumData := prefixData + Symbols(payloadData) + Zeros(8);
    var checksum := Polymod(checksumData);
    var tail := ChecksumToArray(checksum);
    DigitsOfNumber(Checksum(checksumData));
    payload := Some(payloadData + Numbers(tail));
  }

  method Print(n: NetworkRegistry.Network, kind: AddressType, hash: Buffer, stripPrefix: bool) returns (r: Result<string, Problem>)
    ensures r == ToCashAddress(n, kind, hash, stripPrefix)
  {
    var found := NetworkPrefix(n);
    if found == None {
      return Failure(NoPrefix);
    }
    var prefix := found.value;
    var size := HashSizeBits(|hash| * 8);
    if size == None {
      return Failure(InvalidHashSize);
    }
    var payload := PrintPayload(prefix, TypeBits(kind) + size.value, hash);
    if payload == None {
      return Failure(ConversionRequiresPadding);
    }
    var text := Base32.EncodeText(payload.value);
    if text == None {
      return Failure(InvalidCharacter);
    }
    r := Success(if stripPrefix then text.value else prefix + ":" + text.value);
  }

  method IsValidChecksum(prefix: string, payload: seq<int>) returns (valid: bool)
    ensures valid == ValidChecksum(prefix, payload)
  {
    var prefixArray := PrefixToArray(prefix);
    var checksum := Polymod(prefixArray + [0] + Symbols(payload));
    valid := checksum == 0;
  }

  method Parse(r: NetworkRegistry.Registry, input: string) returns (info: Result<Info, Problem>)
    ensures info == Decode(r, input)
  {
    if !HasSingleCase(input) {
      return Failure(MixedCase);
    }
    var address := Lower(input);
    var pieces := Text.Split(address, ':');
    if |pieces| > 2 {
      return Failure(InvalidFormat);
    }
    var prefix := if |pieces| == 2 then pieces[0] else "";
    var decoded := Base32.DecodeText(Lower(pieces[|pieces| - 1]));
    if decoded == None {
      return Failure(InvalidCharacter);
    }
    var payload := decoded.value;
    if prefix != "" {
      var valid := IsValidChecksum(prefix, payload);
      if !valid {
        return Failure(InvalidChecksum);
      }
    } else {
      var recovered := FindPrefix(r, payload);
      if recovered.Failure? {
        return Failure(recovered.error);
      }
      prefix := recovered.value;
    }
    info := ReadPayload(r, prefix, payload);
  }

  /** The loop over the network names. */
  method FindPrefix(r: NetworkRegistry.Registry, payload: seq<int>) returns (prefix: Result<string, Problem>)
    ensures prefix == Recover(r, NET_NAMES, payload)
  {
    var netNames := NET_NAMES;
    while netNames != []
      invariant Recover(r, netNames, payload) == Recover(r, NET_NAMES, payload)
      decreases netNames
    {
      var name := netNames[0];
      netNames := netNames[1..];
      var p := PrefixOf(r, name);
      if p == None {
        return Failure(NoSuchNetwork);
      }
      var valid := IsValidChecksum(p.value, payload);
      if valid {
        return Success(p.value);
      }
    }
    prefix := Failure(InvalidChecksum);
  }

  method ReadPayload(r: NetworkRegistry.Registry, prefix: string, payload: seq<int>) returns (info: Result<Info, Problem>)
    ensures info == DecodePayload(r, prefix, payload)
  {
    var converted := ConvertBits.ConvertBits(DropChecksum(payload), 5, 8, true);
    if converted.Failure? {
      return Failure(ConversionRequiresPadding);
    }
    var bytes := converted.value;
    if bytes == [] || HashSize(bytes[0]) != |bytes[1..]| * 8 {
      return Failure(InvalidHashSize);
    }
    var kind := TypeOf(bytes[0]);
    if kind == None {
      return Failure(InvalidType);
    }
    info := Success(Info(BufferFrom(bytes[1..]), kind.value, NetworkRegistry.Get(r, prefix)));
  }
}
