/** Why a text is refused as an address, told by the characters of the text and the bits of the
    version byte alone. */
module AddressErrors {
  import opened Wrappers
  import opened Text
  import opened Bytes
  import opened CashAddress
  import Base32
  import ConvertBits
  import NetworkRegistry

  // ----- letters of both cases

  predicate HasUpperCase(s: string) {
    exists i :: 0 <= i < |s| && 'A' <= s[i] <= 'Z'
  }

  predicate HasLowerCase(s: string) {
    exists i :: 0 <= i < |s| && 'a' <= s[i] <= 'z'
  }

  predicate Mixed(s: string) {
    HasUpperCase(s) && HasLowerCase(s)
  }

  lemma SingleCase(s: string)
    ensures HasSingleCase(s) <==> !Mixed(s)
  {
    if i, j :| 0 <= i < |s| && 'A' <= s[i] <= 'Z' && 0 <= j < |s| && 'a' <= s[j] <= 'z' {
      assert Lower(s)[i] != s[i] && Upper(s)[j] != s[j];
    }
  }

  lemma {:induction false} RecoverProblems(r: NetworkRegistry.Registry, names: seq<string>, payload: seq<int>)
    ensures var recovered := Recover(r, names, payload);
            recovered.Success? || recovered.error == InvalidChecksum || recovered.error == NoSuchNetwork
  {
    if names != [] {
      RecoverProblems(r, names[1..], payload);
    }
  }

  /** Problems that show only once the payload is known. */
  predicate Late(problem: Problem) {
    !problem.MixedCase? && !problem.InvalidFormat? && !problem.InvalidCharacter?
  }

  lemma PayloadProblems(r: NetworkRegistry.Registry, prefix: string, payload: seq<int>)
    ensures DecodePayload(r, prefix, payload).Failure? ==> Late(DecodePayload(r, prefix, payload).error)
  {
  }

  /** Reading a payload, with or without a prefix. */
  function ReadSymbols(r: NetworkRegistry.Registry, prefix: string, payload: seq<int>): Result<Info, Problem> {
    if prefix != "" then
      if ValidChecksum(prefix, payload) then DecodePayload(r, prefix, payload) else Failure(InvalidChecksum)
    else
      match Recover(r, NET_NAMES, payload)
      case Failure(problem) => Failure(problem)
      case Success(p) => DecodePayload(r, p, payload)
  }

  lemma ReadProblems(r: NetworkRegistry.Registry, prefix: string, payload: seq<int>)
    ensures ReadSymbols(r, prefix, payload).Failure? ==> Late(ReadSymbols(r, prefix, payload).error)
  {
    if prefix != "" {
      PayloadProblems(r, prefix, payload);
    } else {
      RecoverProblems(r, NET_NAMES, payload);
      if Recover(r, NET_NAMES, payload).Success? {
        PayloadProblems(r, Recover(r, NET_NAMES, payload).value, payload);
      }
    }
  }

  lemma DecodeStages(r: NetworkRegistry.Registry, t: string)
    ensures var pieces := Split(t, ':');
            var text := Lower(pieces[|pieces| - 1]);
            DecodeLower(r, t)
            == if |pieces| > 2 then Failure(InvalidFormat)
               else if !Base32.Decodable(text) then Failure(InvalidCharacter)
               else ReadSymbols(r, if |pieces| == 2 then pieces[0] else "", Base32.Decode(text).value)
  {
  }

  lemma LowerProblems(r: NetworkRegistry.Registry, t: string)
    ensures var pieces := Split(t, ':');
            && DecodeLower(r, t) != Failure(MixedCase)
            && (DecodeLower(r, t) == Failure(InvalidFormat) <==> |pieces| > 2)
            && (DecodeLower(r, t) == Failure(InvalidCharacter)
                <==> |pieces| <= 2 && !Base32.Decodable(Lower(pieces[|pieces| - 1])))
  {
    DecodeStages(r, t);
    var pieces := Split(t, ':');
    var text := Lower(pieces[|pieces| - 1]);
    if |pieces| <= 2 && Base32.Decodable(text) {
      ReadProblems(r, if |pieces| == 2 then pieces[0] else "", Base32.Decode(text).value);
    }
  }

  /** Exactly the texts with letters of both cases are refused for it. */
  lemma MixedCaseRefused(r: NetworkRegistry.Registry, s: string)
    ensures Decode(r, s) == Failure(MixedCase)
       <==> (exists i :: 0 <= i < |s| && 'A' <= s[i] <= 'Z') && (exists j :: 0 <= j < |s| && 'a' <= s[j] <= 'z')
  {
    SingleCase(s);
    LowerProblems(r, Lower(s));
  }

  /** The same characters, except that letters may be of the other case. */
  predicate SameLetters(s: string, t: string) {
    && |s| == |t|
    && forall i :: 0 <= i < |s| ==>
         || s[i] == t[i]
         || ('A' <= s[i] <= 'Z' && t[i] as int == s[i] as int + 32)
         || ('A' <= t[i] <= 'Z' && s[i] as int == t[i] as int + 32)
  }

  /** Where it is not mixed, case does not matter. */
  lemma CaseIgnored(r: NetworkRegistry.Registry, s: string, t: string)
    requires SameLetters(s, t) && !Mixed(s) && !Mixed(t)
    ensures Decode(r, s) == Decode(r, t)
  {
    SingleCase(s);
    SingleCase(t);
    assert Lower(s) == Lower(t);
  }

  // ----- separators

  lemma PieceCount(s: string, separator: char)
    ensures separator !in s ==> |Split(s, separator)| == 1
    ensures separator in s ==>
      var i := IndexOf(s, separator);
      (|Split(s, separator)| > 2 <==> separator in s[i + 1..])
  {
    if separator in s {
      var i := IndexOf(s, separator);
      var tail := s[i + 1..];
      assert |Split(s, separator)| == 1 + |Split(tail, separator)|;
    }
  }

  lemma ManySeparators(s: string, separator: char)
    ensures |Split(s, separator)| > 2 <==> exists i, j :: 0 <= i < j < |s| && s[i] == separator && s[j] == separator
  {
    PieceCount(s, separator);
    if separator in s {
      var i := IndexOf(s, separator);
      if separator in s[i + 1..] {
        var j :| 0 <= j < |s[i + 1..]| && s[i + 1..][j] == separator;
        assert s[i + 1 + j] == separator;
      }
      if k, j :| 0 <= k < j < |s| && s[k] == separator && s[j] == separator {
        NotBefore(s, k, i);
        InSuffix(s, j, i);
      }
    }
  }

  /** Exactly the texts with two separators are refused for it, unless their case is mixed. */
  lemma FormatRefused(r: NetworkRegistry.Registry, s: string)
    ensures Decode(r, s) == Failure(InvalidFormat)
       <==> !Mixed(s) && exists i, j :: 0 <= i < j < |s| && s[i] == ':' && s[j] == ':'
  {
    SingleCase(s);
    LowerProblems(r, Lower(s));
    ManySeparators(Lower(s), ':');
    LowerSeparators(s);
  }

  lemma LowerSeparators(s: string)
    ensures forall i :: 0 <= i < |s| ==> (Lower(s)[i] == ':' <==> s[i] == ':')
  {
  }

  // ----- characters

  /** The letters of either case and the digits, but for 1, b, i and o. */
  predicate InAlphabet(c: char) {
    || ('0' <= c <= '9' && c != '1')
    || ('a' <= c <= 'z' && c != 'b' && c != 'i' && c != 'o')
    || ('A' <= c <= 'Z' && c != 'B' && c != 'I' && c != 'O')
  }

  lemma LowerAlphabet(c: char)
    requires !('A' <= c <= 'Z')
    ensures c in Base32.CHARSET_INVERSE_INDEX <==> InAlphabet(c)
  {
  }

  lemma Alphabet(c: char)
    ensures LowerChar(c) in Base32.CHARSET_INVERSE_INDEX <==> InAlphabet(c)
  {
    LowerAlphabet(LowerChar(c));
  }

  /** Character i stands in the last piece. */
  predicate InLastPiece(s: string, i: int) {
    0 <= i < |s| && ':' !in s[i..]
  }

  /** The text ends with the piece, and the separator or nothing is before it. */
  predicate EndsWith(s: string, separator: char, last: string) {
    && |last| <= |s| && s[|s| - |last|..] == last && separator !in last
    && (|last| == |s| || s[|s| - |last| - 1] == separator)
  }

  lemma EndsBehind(s: string, separator: char, i: nat, last: string)
    requires i < |s| && s[i] == separator && EndsWith(s[i + 1..], separator, last)
    ensures EndsWith(s, separator, last)
  {
    assert s[|s| - |last|..] == s[i + 1..][|s[i + 1..]| - |last|..];
  }

  lemma LastOfConcat(head: seq<string>, pieces: seq<string>)
    requires pieces != []
    ensures (head + pieces)[|head + pieces| - 1] == pieces[|pieces| - 1]
  {
  }

  lemma {:induction false} LastPiece(s: string, separator: char)
    ensures EndsWith(s, separator, Split(s, separator)[|Split(s, separator)| - 1])
  {
    if separator in s {
      var i := IndexOf(s, separator);
      var pieces := Split(s[i + 1..], separator);
      LastPiece(s[i + 1..], separator);
      LastOfConcat([s[..i]], pieces);
      EndsBehind(s, separator, i, pieces[|pieces| - 1]);
    }
  }

  lemma LastCharacters(t: string, i: nat)
    requires i < |t|
    ensures var pieces := Split(t, ':');
            InLastPiece(t, i) <==> i >= |t| - |pieces[|pieces| - 1]|
  {
    LastPiece(t, ':');
    var pieces := Split(t, ':');
    var k := |t| - |pieces[|pieces| - 1]|;
    if i >= k {
      assert t[i..] == t[k..][i - k..];
    } else {
      assert t[i..][k - 1 - i] == ':';
    }
  }

  /** Exactly the texts with a character outside the alphabet behind the last separator are
      refused for it, unless their case is mixed or they have two separators. */
  lemma CharacterRefused(r: NetworkRegistry.Registry, s: string)
    ensures Decode(r, s) == Failure(InvalidCharacter)
       <==> && !Mixed(s) && !(exists i, j :: 0 <= i < j < |s| && s[i] == ':' && s[j] == ':')
            && exists i :: InLastPiece(s, i) && !InAlphabet(s[i])
  {
    var t := Lower(s);
    SingleCase(s);
    LowerProblems(r, t);
    ManySeparators(t, ':');
    LowerSeparators(s);
    LastAlphabet(s);
  }

  lemma DecodableLower(tail: string)
    ensures Base32.Decodable(Lower(Lower(tail))) <==> forall i :: 0 <= i < |tail| ==> InAlphabet(tail[i])
  {
    CaseLaws(tail);
    forall i | 0 <= i < |tail| ensures Lower(tail)[i] in Base32.CHARSET_INVERSE_INDEX <==> InAlphabet(tail[i]) {
      Alphabet(tail[i]);
    }
  }

  lemma LastStart(s: string) returns (k: nat)
    ensures k <= |s| && Split(Lower(s), ':')[|Split(Lower(s), ':')| - 1] == Lower(s[k..])
    ensures forall i :: 0 <= i < |s| ==> (InLastPiece(s, i) <==> i >= k)
  {
    var t := Lower(s);
    LastPiece(t, ':');
    k := |s| - |Split(t, ':')[|Split(t, ':')| - 1]|;
    assert t[k..] == Lower(s[k..]);
    forall i | 0 <= i < |s| ensures InLastPiece(s, i) <==> i >= k {
      LastCharacters(t, i);
      SameSeparators(s, i);
    }
  }

  lemma LastAlphabet(s: string)
    ensures var pieces := Split(Lower(s), ':');
            Base32.Decodable(Lower(pieces[|pieces| - 1])) <==> forall i :: InLastPiece(s, i) ==> InAlphabet(s[i])
  {
    var k := LastStart(s);
    var tail := s[k..];
    DecodableLower(tail);
    if forall i :: InLastPiece(s, i) ==> InAlphabet(s[i]) {
      forall i | 0 <= i < |tail| ensures InAlphabet(tail[i]) {
        assert InLastPiece(s, k + i);
      }
    } else {
      var i :| InLastPiece(s, i) && !InAlphabet(s[i]);
      assert tail[i - k] == s[i];
    }
  }

  lemma SameSeparators(s: string, i: nat)
    requires i < |s|
    ensures InLastPiece(s, i) <==> InLastPiece(Lower(s), i)
  {
    assert Lower(s)[i..] == Lower(s[i..]);
    LowerSeparators(s[i..]);
    if ':' in s[i..] {
      var j :| 0 <= j < |s[i..]| && s[i..][j] == ':';
      assert Lower(s[i..])[j] == ':';
    }
  }

  // ----- prefixes and payloads

  /** An empty prefix counts as none. */
  lemma EmptyPrefix(r: NetworkRegistry.Registry, text: string)
    requires ':' !in text
    ensures Decode(r, ":" + text) == Decode(r, text)
  {
    LowerSeparators(text);
    var t := Lower(text);
    assert Lower(":" + text) == "" + [':'] + t;
    SplitAt("", ':', t);
    SameCase(text);
  }

  lemma SameCase(text: string)
    ensures HasSingleCase(":" + text) <==> HasSingleCase(text)
  {
    var s := ":" + text;
    assert s[1..] == text && Lower(s)[1..] == Lower(text) && Upper(s)[1..] == Upper(text);
    assert Lower(text) == text ==> Lower(s) == s;
    assert Upper(text) == text ==> Upper(s) == s;
  }

  /** More than four bits are left behind the last byte of the data, or some that are not zero. */
  predicate BitsLeft(data: seq<int>) {
    var left := |data| * 5 % 8;
    left >= 5 || ConvertBits.Number(data, 5) % ConvertBits.Power(left) != 0
  }

  lemma JoinRefused(data: seq<int>)
    requires Base32.Encodable(data)
    ensures ConvertBits.Convert(data, 5, 8, true).Failure? <==> BitsLeft(data)
  {
    EncodableInRange(data);
    ConvertBits.StrictRefused(data, 5, 8);
  }

  /** What the version byte and the hash are read as. */
  function ReadBytes(r: NetworkRegistry.Registry, prefix: string, bytes: seq<int>): Result<Info, Problem> {
    if bytes == [] || HashSize(bytes[0]) != (|bytes| - 1) * 8 then Failure(InvalidHashSize)
    else if TypeOf(bytes[0]).None? then Failure(InvalidType)
    else Success(Info(BufferFrom(bytes[1..]), TypeOf(bytes[0]).value, NetworkRegistry.Get(r, prefix)))
  }

  lemma PayloadRead(r: NetworkRegistry.Registry, prefix: string, payload: seq<int>)
    requires Base32.Encodable(payload)
    ensures BitsLeft(DropChecksum(payload)) ==> DecodePayload(r, prefix, payload) == Failure(ConversionRequiresPadding)
    ensures !BitsLeft(DropChecksum(payload)) ==>
      var bytes := ConvertBits.Convert(DropChecksum(payload), 5, 8, true);
      bytes.Success? && DecodePayload(r, prefix, payload) == ReadBytes(r, prefix, bytes.value)
  {
    JoinRefused(DropChecksum(payload));
  }

  /** What is wrong with a prefixed address whose characters are fine, in the order of the tests:
      the checksum, bits left over behind the last byte, the size, the type. */
  lemma PayloadRefused(r: NetworkRegistry.Registry, prefix: string, text: string)
    requires ProperPrefix(prefix) && Base32.Decodable(text)
    ensures var payload := Base32.Decode(text).value;
            var bytes := ConvertBits.Convert(DropChecksum(payload), 5, 8, true);
            if !ValidChecksum(prefix, payload) then Decode(r, prefix + ":" + text) == Failure(InvalidChecksum)
            else if BitsLeft(DropChecksum(payload)) then Decode(r, prefix + ":" + text) == Failure(ConversionRequiresPadding)
            else bytes.Success? && Decode(r, prefix + ":" + text) == ReadBytes(r, prefix, bytes.value)
  {
    TextCase(text);
    DecodePrefixed(r, prefix, text);
    Base32.EncodeDecode(text);
    PayloadRead(r, prefix, Base32.Decode(text).value);
  }

  /** The network is registered and has a prefix, for which the payload is not valid. */
  predicate Unfit(r: NetworkRegistry.Registry, name: string, payload: seq<int>) {
    PrefixOf(r, name).Some? && !ValidChecksum(PrefixOf(r, name).value, payload)
  }

  /** Where the prefix has to be guessed, the first network without one stops the search, unless
      the payload is valid for one before it. */
  lemma RecoverExactly(r: NetworkRegistry.Registry, payload: seq<int>)
    ensures var live, test, reg := "livenet", "testnet", "regtest";
            && (Recover(r, NET_NAMES, payload) == Failure(NoSuchNetwork)
                <==> || PrefixOf(r, live).None?
                     || (Unfit(r, live, payload) && PrefixOf(r, test).None?)
                     || (Unfit(r, live, payload) && Unfit(r, test, payload) && PrefixOf(r, reg).None?))
            && (Recover(r, NET_NAMES, payload) == Failure(InvalidChecksum)
                <==> Unfit(r, live, payload) && Unfit(r, test, payload) && Unfit(r, reg, payload))
  {
    assert NET_NAMES == ["livenet", "testnet", "regtest"];
    RecoverStep(r, "livenet", ["testnet", "regtest"], payload);
    RecoverStep(r, "testnet", ["regtest"], payload);
    RecoverStep(r, "regtest", [], payload);
    assert ["livenet"] + ["testnet", "regtest"] == NET_NAMES;
    assert ["testnet"] + ["regtest"] == ["testnet", "regtest"];
    assert ["regtest"] + [] == ["regtest"];
  }

  lemma RecoverStep(r: NetworkRegistry.Registry, name: string, names: seq<string>, payload: seq<int>)
    ensures Recover(r, [name] + names, payload)
         == if PrefixOf(r, name).None? then Failure(NoSuchNetwork)
            else if Unfit(r, name, payload) then Recover(r, names, payload) else Success(PrefixOf(r, name).value)
  {
    assert ([name] + names)[1..] == names;
  }

  // ----- the version byte

  /** The eight sizes: four steps of 32 bits from 160 on, and their doubles. */
  lemma HashSizes(version: int, bits: int)
    ensures HashSize(version) == (160 + 32 * (version % 4)) * (1 + version % 8 / 4)
    ensures forall k :: 0 <= k < 8 ==> (HashSizeBits(bits) == Some(k) <==> bits == (160 + 32 * (k % 4)) * (1 + k / 4))
    ensures HashSizeBits(bits).Some? ==> 0 <= HashSizeBits(bits).value < 8
  {
  }

  /** Bits 3 to 6 of the version byte are the type, as the mask of the code has it. */
  lemma TypeMask(version: bv8)
    ensures TypeOf(version as int) == Some(PubKeyHash) <==> version & 120 == 0
    ensures TypeOf(version as int) == Some(ScriptHash) <==> version & 120 == 8
  {
  }

  /** The version byte of a printed address: the top bit clear, then four bits for the type,
      then three for the size. */
  lemma VersionLayout(kind: AddressType, hash: Buffer, version: bv8)
    requires HashSizeBits(|hash| * 8).Some? && version as int == VersionOf(kind, hash)
    ensures version & 128 == 0
    ensures version & 120 == (if kind.ScriptHash? then 8 else 0)
    ensures |hash| == (20 + 4 * ((version & 3) as int)) * (if version & 4 != 0 then 2 else 1)
  {
  }
}
