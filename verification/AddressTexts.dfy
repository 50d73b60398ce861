/** Which texts are read as addresses, beyond the printed ones: other spellings of an address,
    other names of its network, insertions, and the limits of the string constructor. */
module AddressTexts {
  import opened Wrappers
  import opened Text
  import opened Bytes
  import opened CashAddress
  import PolyMod
  import ConvertBits
  import Base32
  import opened NetworkRegistry
  import opened BuiltInNetworks

  // ----- other spellings

  /** The text whose payload has a given version byte. */
  lemma SpellingExists(prefix: string, version: Byte, hash: Buffer) returns (text: string)
    ensures Spells(prefix, version, hash, text) && Lower(text) == text && ':' !in text
  {
    PayloadRoundTrip(prefix, version, hash);
    var payload := Payload(prefix, version, hash).value;
    Base32.DecodeEncode(payload);
    text := Base32.Encode(payload).value;
    TextCase(text);
  }

  lemma PrintedIsFirst(prefix: string, kind: AddressType, hash: Buffer, text: string)
    requires HashSizeBits(|hash| * 8).Some? && PrintWith(prefix, kind, hash, false) == Success(prefix + ":" + text)
    requires ':' !in text
    ensures Spells(prefix, VersionOf(kind, hash), hash, text)
  {
    var tail := PrintedParts(prefix, kind, hash);
    SameTail(prefix + ":", tail, text);
    var version := VersionOf(kind, hash);
    PayloadRoundTrip(prefix, version, hash);
    var payload := Payload(prefix, version, hash).value;
    PrintedAs(prefix, kind, hash, payload);
    SameTail(prefix + ":", Base32.Encode(payload).value, text);
    Base32.DecodeEncode(payload);
  }

  lemma SecondNotPrinted(own: string, prefix: string, kind: AddressType, hash: Buffer, text: string)
    requires HashSizeBits(|hash| * 8).Some? && ':' !in text && Spells(prefix, VersionOf(kind, hash) + 128, hash, text)
    ensures PrintWith(own, kind, hash, false) != Success(prefix + ":" + text)
  {
    if own != prefix {
      OtherPrefixPrinted(prefix, own, text, kind, hash);
    } else if PrintWith(own, kind, hash, false) == Success(prefix + ":" + text) {
      PrintedIsFirst(prefix, kind, hash, text);
      SpellingsDiffer(prefix, VersionOf(kind, hash), hash, text, text);
    }
  }

  lemma NoNetworkPrints(n: Network, prefix: string, kind: AddressType, hash: Buffer, text: string)
    requires HashSizeBits(|hash| * 8).Some? && ':' !in text && Spells(prefix, VersionOf(kind, hash) + 128, hash, text)
    ensures ToCashAddress(n, kind, hash, false) != Success(prefix + ":" + text)
  {
    if NetworkPrefix(n).Some? {
      SecondNotPrinted(NetworkPrefix(n).value, prefix, kind, hash, text);
    }
  }

  /** For every address under every prefix there is a text that is read as this address and
      that no network prints: the one with the top bit of the version byte set. */
  lemma SecondSpelling(r: Registry, n: Network, prefix: string, kind: AddressType, hash: Buffer) returns (text: string)
    requires HashSizeBits(|hash| * 8).Some? && ProperPrefix(prefix)
    ensures Decode(r, prefix + ":" + text) == Success(Info(hash, kind, Get(r, prefix)))
    ensures ToCashAddress(n, kind, hash, false) != Success(prefix + ":" + text)
  {
    text := SpellingExists(prefix, VersionOf(kind, hash) + 128, hash);
    OneOfTwoAccepted(r, prefix, kind, hash, text);
    NoNetworkPrints(n, prefix, kind, hash, text);
  }

  /** A network is also found under the other values of its fields.  For each of them that is
      proper, every address has a text with the top bit clear that is read as this address on
      this network and printed under the network's own prefix. */
  lemma OtherNameAccepted(r: Registry, n: Network, name: string, kind: AddressType, hash: Buffer) returns (text: string)
    requires HashSizeBits(|hash| * 8).Some? && ProperPrefix(name)
    requires Get(r, name) == Some(n) && NetworkPrefix(n).Some? && NetworkPrefix(n).value != name
    ensures Decode(r, name + ":" + text) == Success(Info(hash, kind, Some(n)))
    ensures text != "" && text[0] in Base32.CHARSET_INVERSE_INDEX && Base32.CHARSET_INVERSE_INDEX[text[0]] < 16
    ensures ToCashAddress(n, kind, hash, false).Success? && ToCashAddress(n, kind, hash, false) != Success(name + ":" + text)
  {
    text := SpellingExists(name, VersionOf(kind, hash), hash);
    OneOfTwoAccepted(r, name, kind, hash, text);
    FirstSpelled(r, name, kind, hash, text);
    PrintSucceeds(n, kind, hash, false);
    OtherPrefixPrinted(name, NetworkPrefix(n).value, text, kind, hash);
  }

  lemma FirstSpelled(r: Registry, prefix: string, kind: AddressType, hash: Buffer, text: string)
    requires HashSizeBits(|hash| * 8).Some? && ProperPrefix(prefix) && Lower(text) == text && ':' !in text
    requires Spells(prefix, VersionOf(kind, hash), hash, text)
    ensures Base32.Decodable(text) && text != [] && Base32.CHARSET_INVERSE_INDEX[text[0]] < 16
  {
    FirstSpellingPrinted(prefix, kind, hash, text);
    var tail := PrintedText(r, prefix, kind, hash);
    assert tail == text;
    OneOfTwoAccepted(r, prefix, kind, hash, text);
    RespelledAsParsed(r, prefix, text);
  }

  predicate MeansUnder(r: Registry, info: Info, prefix: string, text: string)
    requires HashSizeBits(|info.hashBuffer| * 8).Some?
  {
    Get(r, prefix) == info.network && OneOfTwo(prefix, info.kind, info.hashBuffer, text)
  }

  /** The texts without a prefix that mean an address: those of either spelling, for a built-in
      prefix under which its network is found. */
  lemma BareSpellings(r: Registry, info: Info, text: string)
    requires KnowsBuiltIn(r) && HashSizeBits(|info.hashBuffer| * 8).Some? && Lower(text) == text && ':' !in text
    ensures Decode(r, text) == Success(info)
       <==> exists prefix :: BuiltInPrefix(prefix) && MeansUnder(r, info, prefix, text)
  {
    if Decode(r, text) == Success(info) {
      var prefix := BarePrefix(r, text);
      TwoSpellings(r, info, prefix, text);
    } else if prefix :| BuiltInPrefix(prefix) && MeansUnder(r, info, prefix, text) {
      BuiltInProper(prefix);
      TwoSpellings(r, info, prefix, text);
      StrippedLikePrefixed(r, prefix, text);
    }
  }

  /** What is read without a prefix is read with one of the built-in prefixes. */
  lemma BarePrefix(r: Registry, text: string) returns (prefix: string)
    requires KnowsBuiltIn(r) && Lower(text) == text && ':' !in text && Decode(r, text).Success?
    ensures BuiltInPrefix(prefix) && ProperPrefix(prefix) && Decode(r, prefix + ":" + text) == Decode(r, text)
  {
    DecodeStripped(r, text);
    var payload := Base32.Decode(text).value;
    RecoverCases(r, payload);
    prefix := Recover(r, NET_NAMES, payload).value;
    BuiltInProper(prefix);
    DecodePrefixed(r, prefix, text);
  }

  // ----- printed addresses under any prefix

  lemma LowerPrefix(p: string)
    ensures PrefixData(Lower(p)) == PrefixData(p)
    ensures ':' in Lower(p) <==> ':' in p
    ensures p != "" && ':' !in p ==> ProperPrefix(Lower(p))
  {
    CaseLaws(p);
    forall i | 0 <= i < |p| ensures PrefixArray(Lower(p))[i] == PrefixArray(p)[i] && (Lower(p)[i] == ':' <==> p[i] == ':') {
      LowerSymbol(p[i]);
    }
    assert PrefixArray(Lower(p)) == PrefixArray(p);
    if ':' in p {
      var i :| 0 <= i < |p| && p[i] == ':';
      assert Lower(p)[i] == ':';
    }
  }

  lemma LowerSymbol(c: char)
    ensures (LowerChar(c) as int) % 32 == (c as int) % 32
    ensures LowerChar(c) == ':' <==> c == ':'
  {
    if 'A' <= c <= 'Z' {
      assert LowerChar(c) as int == c as int + 32;
    }
  }

  lemma SameSpelledLower(p: string, kind: AddressType, hash: Buffer)
    ensures PrintWith(Lower(p), kind, hash, true) == PrintWith(p, kind, hash, true)
  {
    LowerPrefix(p);
  }

  lemma ManyPieces(a: string, b: string)
    requires ':' in a
    ensures |Split(a + ":" + b, ':')| > 2
  {
    var i := IndexOf(a, ':');
    var head, tail := a[..i], a[i + 1..];
    assert a + ":" + b == head + [':'] + (tail + ":" + b);
    SplitAt(head, ':', tail + ":" + b);
    TwoPieces(tail, b);
  }

  lemma TwoPieces(a: string, b: string)
    ensures |Split(a + ":" + b, ':')| >= 2
  {
    var s := a + ":" + b;
    assert s[|a|] == ':';
  }

  /** What is printed under a prefix of any form can be parsed exactly if it is in one case and
      the prefix has no separator in it; the network is then sought under the prefix in lower
      case. */
  lemma PrintedRead(r: Registry, prefix: string, kind: AddressType, hash: Buffer)
    requires HashSizeBits(|hash| * 8).Some? && prefix != ""
    ensures var printed := PrintWith(prefix, kind, hash, false);
            && printed.Success?
            && Decode(r, printed.value)
               == if !HasSingleCase(printed.value) then Failure(MixedCase)
                  else if ':' in prefix then Failure(InvalidFormat)
                  else Success(Info(hash, kind, Get(r, Lower(prefix))))
  {
    var text := PrintedText(r, prefix, kind, hash);
    TextCase(text);
    LowerConcat(prefix, text);
    LowerPrefix(prefix);
    if ':' in prefix {
      ManyPieces(Lower(prefix), text);
    } else {
      ReadLower(r, prefix, kind, hash, text);
    }
  }

  lemma ReadLower(r: Registry, prefix: string, kind: AddressType, hash: Buffer, text: string)
    requires HashSizeBits(|hash| * 8).Some? && ProperPrefix(Lower(prefix)) && Lower(text) == text && ':' !in text
    requires PrintWith(prefix, kind, hash, true) == Success(text)
    ensures DecodeLower(r, Lower(prefix) + ":" + text) == Success(Info(hash, kind, Get(r, Lower(prefix))))
  {
    SameSpelledLower(prefix, kind, hash);
    var same := PrintedText(r, Lower(prefix), kind, hash);
    assert same == text;
    DecodePrefixed(r, Lower(prefix), text);
    LowerConcat(Lower(prefix), text);
  }

  // ----- lengths

  /** The number of payload characters for a hash of so many bytes. */
  function TextLength(hashLength: nat): nat {
    8 + (8 * (hashLength + 1) + 4) / 5
  }

  /** The length of an accepted payload is determined by the length of the hash. */
  lemma AcceptedLength(r: Registry, prefix: string, text: string)
    requires ProperPrefix(prefix) && Lower(text) == text && ':' !in text && Decode(r, prefix + ":" + text).Success?
    ensures |text| == TextLength(|Decode(r, prefix + ":" + text).value.hashBuffer|)
  {
    Accepted(r, prefix, text);
    ConvertBits.JoinLength(DropChecksum(Base32.Decode(text).value), 5, 8);
  }

  lemma AllBitsHead(data: seq<int>, width: nat)
    requires data != []
    ensures ConvertBits.AllBits(data, width) == ConvertBits.LowBits(data[0], width) + ConvertBits.AllBits(data[1..], width)
  {
  }

  lemma FirstTwo(data: seq<int>)
    requires |data| >= 2
    ensures ConvertBits.AllBits(data, 5)
         == ConvertBits.LowBits(data[0], 5) + (ConvertBits.LowBits(data[1], 5) + ConvertBits.AllBits(data[1..][1..], 5))
  {
    AllBitsHead(data, 5);
    AllBitsHead(data[1..], 5);
  }

  lemma FirstByte(data: seq<int>, bytes: seq<int>)
    requires bytes != [] && ConvertBits.Convert(data, 5, 8, true) == Success(bytes)
    ensures |data| >= 2
    ensures bytes[0] == ConvertBits.Value((ConvertBits.LowBits(data[0], 5) + ConvertBits.LowBits(data[1], 5))[..8])
  {
    ConvertBits.JoinLength(data, 5, 8);
    var b := ConvertBits.AllBits(data, 5);
    var two := ConvertBits.LowBits(data[0], 5) + ConvertBits.LowBits(data[1], 5);
    FirstTwo(data);
    assert b[..8] == two[..8];
  }

  /** The first two characters spell the version byte, and so the length of the text. */
  lemma VersionCharacters(r: Registry, prefix: string, text: string, other: string)
    requires ProperPrefix(prefix) && Lower(text) == text && ':' !in text && Lower(other) == other && ':' !in other
    requires Decode(r, prefix + ":" + text).Success? && Decode(r, prefix + ":" + other).Success?
    requires |text| >= 2 && |other| >= 2 && text[..2] == other[..2]
    ensures |text| == |other|
  {
    Accepted(r, prefix, text);
    Accepted(r, prefix, other);
    AcceptedLength(r, prefix, text);
    AcceptedLength(r, prefix, other);
    assert text[0] == text[..2][0] == other[0] && text[1] == text[..2][1] == other[1];
    var data, data' := DropChecksum(Base32.Decode(text).value), DropChecksum(Base32.Decode(other).value);
    FirstByte(data, ConvertBits.Convert(data, 5, 8, true).value);
    FirstByte(data', ConvertBits.Convert(data', 5, 8, true).value);
  }

  /** Characters inserted into an accepted payload behind its first two, or dropped there, are
      always noticed, whatever the checksum says. */
  lemma InsertionDetected(r: Registry, prefix: string, text: string, other: string)
    requires ProperPrefix(prefix) && Lower(text) == text && ':' !in text && Lower(other) == other && ':' !in other
    requires Decode(r, prefix + ":" + text).Success?
    requires |other| >= 2 && |text| >= 2 && text[..2] == other[..2] && |text| != |other|
    ensures Decode(r, prefix + ":" + other).Failure?
  {
    if Decode(r, prefix + ":" + other).Success? {
      VersionCharacters(r, prefix, text, other);
    }
  }

  /** In particular a zero symbol before the last one, which the checksum does not see where
      the last symbol is 1. */
  lemma InsertedZeroRejected(r: Registry, prefix: string, text: string)
    requires ProperPrefix(prefix) && Lower(text) == text && ':' !in text && Decode(r, prefix + ":" + text).Success?
    ensures |text| > 8 && Decode(r, prefix + ":" + (text[..|text| - 1] + "q" + text[|text| - 1..])).Failure?
  {
    Accepted(r, prefix, text);
    LowerInserted(text, |text| - 1);
    InsertionDetected(r, prefix, text, text[..|text| - 1] + "q" + text[|text| - 1..]);
  }

  predicate ValidText(prefix: string, text: string) {
    Base32.Decodable(text) && ValidChecksum(prefix, Base32.Decode(text).value)
  }

  lemma LowerInserted(text: string, n: nat)
    requires 2 <= n < |text| && Lower(text) == text && ':' !in text
    ensures var other := text[..n] + "q" + text[n..];
            Lower(other) == other && ':' !in other && other[..2] == text[..2] && |other| == |text| + 1
  {
    var other := text[..n] + "q" + text[n..];
    forall i | 0 <= i < |other| ensures LowerChar(other[i]) == other[i] && other[i] != ':' {
      if i < n {
        assert other[i] == text[i] == Lower(text)[i];
      } else if i > n {
        assert other[i] == text[i - 1] == Lower(text)[i - 1];
      }
    }
  }

  lemma InsertedZeroParts(text: string)
    requires Base32.Decodable(text) && text != "" && text[|text| - 1] == 'p'
    ensures var n := |text| - 1;
            var head := Base32.Decode(text).value[..n];
            && Base32.Decode(text) == Some(head + [1])
            && Base32.Decode(text[..n] + "q" + text[n..]) == Some(head + [0, 1])
  {
    var n := |text| - 1;
    var other := text[..n] + "q" + text[n..];
    assert Base32.Decode(text).value == Base32.Decode(text).value[..n] + [1];
    assert Base32.Decode(other).value == Base32.Decode(text).value[..n] + [0, 1];
  }

  lemma TailSymbols(head: PolyMod.Word, data: seq<int>, tail: PolyMod.Word, numbers: seq<int>)
    requires Symbols(numbers) == tail
    ensures head + Symbols(data + numbers) == head + Symbols(data) + tail
  {
    SymbolsConcat(data, numbers);
  }

  lemma OneSymbols(one: PolyMod.Symbol)
    requires one == 1
    ensures Symbols([1]) == [one] && Symbols([0, 1]) == [0, one]
  {
  }

  lemma InsertedZeroSymbols(prefix: string, head: seq<int>, one: PolyMod.Symbol)
    requires one == 1 && ValidChecksum(prefix, head + [1])
    ensures ValidChecksum(prefix, head + [0, 1])
  {
    OneSymbols(one);
    TailSymbols(PrefixData(prefix), head, [one], [1]);
    TailSymbols(PrefixData(prefix), head, [0, one], [0, 1]);
    var u: PolyMod.Word := PrefixData(prefix) + Symbols(head);
    assert u + [0, one] == u + [0] + [one];
    PolyMod.InsertedZeroUndetected(u, one);
  }

  /** The checksum alone would let it pass. */
  lemma InsertedZeroValid(prefix: string, text: string)
    requires text != "" && ValidText(prefix, text) && text[|text| - 1] == 'p'
    ensures ValidText(prefix, text[..|text| - 1] + "q" + text[|text| - 1..])
  {
    InsertedZeroParts(text);
    InsertedZeroSymbols(prefix, Base32.Decode(text).value[..|text| - 1], 1);
  }

  // ----- the string constructor

  datatype Rejected = InvalidAddressString | TooLong | MismatchedNetwork | NotCashAddress(problem: CashAddress.Problem) | Legacy

  /** The white space and line terminators of ECMAScript. */
  predicate IsBlank(c: char) {
    var n := c as int;
    || 9 <= n <= 13 || n == 0x20 || n == 0xA0 || n == 0x1680 || 0x2000 <= n <= 0x200A
    || n == 0x2028 || n == 0x2029 || n == 0x202F || n == 0x205F || n == 0x3000 || n == 0xFEFF
  }

  function TrimStart(s: string): string {
    if s != "" && IsBlank(s[0]) then TrimStart(s[1..]) else s
  }

  function TrimEnd(s: string): string {
    if s != "" && IsBlank(s[|s| - 1]) then TrimEnd(s[..|s| - 1]) else s
  }

  predicate Blank(s: string) {
    forall i :: 0 <= i < |s| ==> IsBlank(s[i])
  }

  lemma {:induction false} TrimmedStart(s: string) returns (before: string)
    ensures s == before + TrimStart(s) && Blank(before)
    ensures TrimStart(s) == "" || !IsBlank(TrimStart(s)[0])
  {
    if s != "" && IsBlank(s[0]) {
      before := TrimmedStart(s[1..]);
      before := [s[0]] + before;
    } else {
      before := "";
    }
  }

  lemma {:induction false} TrimmedEnd(s: string) returns (behind: string)
    ensures s == TrimEnd(s) + behind && Blank(behind)
    ensures TrimEnd(s) == "" || !IsBlank(TrimEnd(s)[|TrimEnd(s)| - 1])
  {
    if s != "" && IsBlank(s[|s| - 1]) {
      behind := TrimmedEnd(s[..|s| - 1]);
      behind := behind + [s[|s| - 1]];
    } else {
      behind := "";
    }
  }

  /** Trimming takes away white space at both ends, and all of it. */
  lemma Trimmed(s: string) returns (before: string, behind: string)
    ensures var t := TrimEnd(TrimStart(s));
            && s == before + t + behind && Blank(before) && Blank(behind)
            && (t == "" || (!IsBlank(t[0]) && !IsBlank(t[|t| - 1])))
  {
    before := TrimmedStart(s);
    behind := TrimmedEnd(TrimStart(s));
    var t := TrimEnd(TrimStart(s));
    if t != "" {
      assert t[0] == TrimStart(s)[0];
    }
  }

  /** Reading an address from a string, without a wanted network or type.  Short strings are
      left to the base-58 form, which is not looked into. */
  function FromString(r: Registry, data: string): Result<Info, Rejected> {
    if |data| < 34 then Failure(InvalidAddressString)
    else if |data| > 100 then Failure(TooLong)
    else
      var trimmed := TrimEnd(TrimStart(data));
      if |trimmed| <= 35 then Failure(Legacy)
      else
        match Decode(r, trimmed)
        case Failure(problem) => Failure(NotCashAddress(problem))
        case Success(info) => if info.network.None? then Failure(MismatchedNetwork) else Success(info)
  }

  /** Without white space at its ends, a string of 34 or 35 characters is left to the base-58
      form, and one of 36 to 100 is read, on a network that the registry must have. */
  lemma StringLengths(r: Registry, data: string)
    requires data != "" && !IsBlank(data[0]) && !IsBlank(data[|data| - 1])
    ensures FromString(r, data) == Failure(InvalidAddressString) <==> |data| <= 33
    ensures FromString(r, data) == Failure(Legacy) <==> |data| == 34 || |data| == 35
    ensures FromString(r, data) == Failure(TooLong) <==> |data| >= 101
    ensures FromString(r, data) == Failure(MismatchedNetwork)
       <==> 36 <= |data| <= 100 && Decode(r, data).Success? && Decode(r, data).value.network.None?
    ensures forall info ::
      (FromString(r, data) == Success(info)
       <==> 36 <= |data| <= 100 && Decode(r, data) == Success(info) && info.network.Some?)
  {
    NotTrimmed(data);
  }

  lemma PrintedLength(prefix: string, kind: AddressType, hash: Buffer) returns (text: string)
    requires HashSizeBits(|hash| * 8).Some?
    ensures PrintWith(prefix, kind, hash, false) == Success(prefix + ":" + text)
    ensures PrintWith(prefix, kind, hash, true) == Success(text)
    ensures |text| == TextLength(|hash|) && Base32.Decodable(text)
  {
    var version := VersionOf(kind, hash);
    PayloadRoundTrip(prefix, version, hash);
    var payload := Payload(prefix, version, hash).value;
    ConvertBits.JoinLength(DropChecksum(payload), 5, 8);
    PrintedAs(prefix, kind, hash, payload);
    Base32.DecodeEncode(payload);
    text := Base32.Encode(payload).value;
  }

  lemma CharsetNotBlank(text: string)
    requires Base32.Decodable(text) && text != ""
    ensures !IsBlank(text[|text| - 1]) && !IsBlank(text[0])
  {
    CharNotBlank(text[0]);
    CharNotBlank(text[|text| - 1]);
  }

  lemma CharNotBlank(c: char)
    requires c in Base32.CHARSET_INVERSE_INDEX
    ensures !IsBlank(c)
  {
  }

  /** A printed address can be read by the string constructor exactly if it has at most 100
      characters, although every printed address can be parsed. */
  lemma FromStringPrinted(r: Registry, n: Network, kind: AddressType, hash: Buffer)
    requires HashSizeBits(|hash| * 8).Some? && NetworkPrefix(n).Some?
    requires ProperPrefix(NetworkPrefix(n).value) && !IsBlank(NetworkPrefix(n).value[0])
    requires Get(r, NetworkPrefix(n).value).Some?
    ensures var printed := ToCashAddress(n, kind, hash, false);
            && printed.Success?
            && |printed.value| == |NetworkPrefix(n).value| + 1 + TextLength(|hash|)
            && FromString(r, printed.value)
               == if |printed.value| > 100 then Failure(TooLong)
                  else Success(Info(hash, kind, Get(r, NetworkPrefix(n).value)))
  {
    var prefix := NetworkPrefix(n).value;
    DecodeEncode(r, n, kind, hash);
    var text := PrintedLength(prefix, kind, hash);
    CharsetNotBlank(text);
    TextLengths(|hash|);
    NotTrimmed(prefix + ":" + text);
  }

  lemma NotTrimmed(s: string)
    requires s != "" && !IsBlank(s[0]) && !IsBlank(s[|s| - 1])
    ensures TrimEnd(TrimStart(s)) == s
  {
  }

  lemma TextLengths(hashLength: nat)
    requires HashSizeBits(hashLength * 8).Some?
    ensures 42 <= TextLength(hashLength) <= 112
    ensures TextLength(hashLength) <= 88 <==> hashLength <= 48
    ensures TextLength(hashLength) <= 100 <==> hashLength <= 56
  {
  }

  lemma FromStringStripped(r: Registry, n: Network, kind: AddressType, hash: Buffer)
    requires KnowsBuiltIn(r) && NetworkPrefix(n).Some? && BuiltInPrefix(NetworkPrefix(n).value)
    requires HashSizeBits(|hash| * 8).Some? && Get(r, NetworkPrefix(n).value).Some?
    ensures var printed := ToCashAddress(n, kind, hash, true);
            && printed.Success?
            && FromString(r, printed.value)
               == if TextLength(|hash|) > 100 then Failure(TooLong)
                  else Success(Info(hash, kind, Get(r, NetworkPrefix(n).value)))
  {
    var prefix := NetworkPrefix(n).value;
    BuiltInProper(prefix);
    DecodeEncode(r, n, kind, hash);
    var text := PrintedLength(prefix, kind, hash);
    CharsetNotBlank(text);
    TextLengths(|hash|);
    NotTrimmed(text);
  }

  /** On the main network these are the hashes of up to 48 bytes, or of up to 56 when the
      prefix is stripped. */
  lemma LivenetReadable(r: Registry, n: Network, kind: AddressType, hash: Buffer)
    requires KnowsBuiltIn(r) && Get(r, LIVENET_PREFIX) == Some(n) && NetworkPrefix(n) == Some(LIVENET_PREFIX)
    requires HashSizeBits(|hash| * 8).Some?
    ensures ToCashAddress(n, kind, hash, false).Success? && ToCashAddress(n, kind, hash, true).Success?
    ensures FromString(r, ToCashAddress(n, kind, hash, false).value) == Success(Info(hash, kind, Some(n))) <==> |hash| <= 48
    ensures FromString(r, ToCashAddress(n, kind, hash, true).value) == Success(Info(hash, kind, Some(n))) <==> |hash| <= 56
  {
    BuiltInProper(LIVENET_PREFIX);
    TextLengths(|hash|);
    FromStringPrinted(r, n, kind, hash);
    FromStringStripped(r, n, kind, hash);
  }

  // ----- the built-in main network

  lemma AliasAccepted(r: Registry, n: Network, kind: AddressType, hash: Buffer) returns (text: string)
    requires HashSizeBits(|hash| * 8).Some? && Get(r, "mainnet") == Some(n) && NetworkPrefix(n) == Some("bitcoincash")
    ensures Decode(r, "mainnet:" + text) == Success(Info(hash, kind, Some(n)))
    ensures ToCashAddress(n, kind, hash, false).Success? && ToCashAddress(n, kind, hash, false) != Success("mainnet:" + text)
  {
    MainnetProper();
    text := OtherNameAccepted(r, n, "mainnet", kind, hash);
    assert "mainnet" + ":" + text == "mainnet:" + text;
  }

  lemma MainnetProper()
    ensures ProperPrefix("mainnet")
  {
  }

  /** In the registry as loaded, every address has a text under the alias of the main network
      that is read as this address, but printed as another text. */
  lemma MainnetAccepted(r: Registry, live: NetworkData, test: NetworkData, reg: NetworkData, kind: AddressType, hash: Buffer)
    returns (text: string, n: Network)
    requires CashNetworks(live, test, reg) && r == Loaded(CASH_FIELDS, live, test, reg) && HashSizeBits(|hash| * 8).Some?
    ensures Get(r, "bitcoincash") == Some(n) && Decode(r, "mainnet:" + text) == Success(Info(hash, kind, Some(n)))
    ensures ToCashAddress(n, kind, hash, false).Success? && ToCashAddress(n, kind, hash, false) != Success("mainnet:" + text)
  {
    MainnetFound(live, test, reg);
    n := Get(r, "mainnet").value;
    text := AliasAccepted(r, n, kind, hash);
  }
}
