# Proofs about Bitcore's keys and addresses

This project models five parts of the Bitcore libraries in Dafny and proves what they are
relied on for.

- **CashAddr addresses** (`PolyMod`, `PolyModWords`, `ConvertBits`, `Base32`, `CashAddress`,
  `AddressTexts`, `AddressErrors`, `KnownAddress`).
  The checksum is a register of eight 5-bit symbols. `PolyMod` proves its error detection and
  that it is the code over the field of 32 elements with the generator polynomial of the
  specification; `PolyModWords` proves that the JavaScript loop on two int32 words computes it;
  `ConvertBits` proves when regrouping bits in an int32 accumulator that overflows loses
  nothing; `CashAddress` proves printing and parsing against each other, with the prefix or
  with the prefix guessed from the checksum; `AddressTexts` says which texts are read as an
  address, `AddressErrors` why the others are not, and `KnownAddress` works an address of the
  library's tests out by proof.
- **The network registry** (`NetworkRegistry`, `BuiltInNetworks`, `NetworkVariants`). A list and
  an index that must answer like a scan of the list after any run of additions and removals,
  and what variants of a network are made of.
- **BIP 32 derivation** (`Bytes`, `Curve`, `Bip32`, `Bip32Standard`, `Bip32Instances`, `DerivationPath`,
  `ExtendedKey`). Private and public derivation with their silent retries commute with taking
  the public half, along any path and any path text; they are compared with the functions of
  the standard, written down separately; keys survive serialisation.
- **The derived key cache** (`HDKeyCache`, `CachedDerivation`). A bounded recency cache on a
  logical clock, and the proof that derivations sharing it never notice it.
- **Taproot tweaking** (`Taproot`). The private and the public tweak agree, the check of an
  output key accepts exactly what it should, and an output key commits to its script tree.

Loops and objects of the source are methods and classes here, each proved equal to a function
on values; the theorems are about those functions. Elliptic curve points are represented by
their discrete logarithms, so that the group needs no axioms; coordinates, hash functions and
base-58 check encoding are parameters. The laws asked of coordinates have a model (`Curve.LawsCanBeMet`).

## Where the code departs from what it is described to do

The model follows the code. Each departure has its exact condition in a lemma.

- Parsing ignores the top bit of the version byte, which the CashAddr specification reserves,
  and accepts any value of a network's fields as its prefix, so an address has two accepted
  payload texts under each of these names, of which one is printed (`CashAddress.EncodeDecode`,
  `TwoSpellings`, `AddressTexts.SecondSpelling`, `OtherNameAccepted`).
- Addresses of more than 100 characters are printed and can be parsed, but are refused by the
  string constructor (`AddressTexts.FromStringPrinted`, `LivenetReadable`).
- `removeNetwork` deletes one occurrence per bucket; a network with two equal field values,
  such as the built-in testnet, stays findable (`NetworkRegistry.RemoveValid`, `ValidExactly`,
  `BuiltInNetworks.RemovedTestnetFound`).
- Regrouping loses bits where pending bits and a value exceed 32 bits
  (`ConvertBits.ConvertedExactly`, `BitsLost`); the widths 8 and 5 that are used do not.
- Derivation reduces an I_L at or above the group order where BIP 32 asks for the next index
  (`Bip32Standard.MatchesStandard`, `PublicMatchesStandard`, `Bip32Instances.StandardDiffers`).
- A negative index is accepted with the hardened flag (`Bip32.NegativeHardened`,
  `Bip32Instances.NegativeDiffers`).
- The retry of private derivation at index 2^31 - 1 goes on into the hardened indexes, where
  public derivation fails; hence the condition in `Bip32.NeuterCommutes`
  (`Bip32Instances.RetryHardens`).
- The depth is kept in one byte on both sides and wraps alike, so commutation needs no bound.
- A serialised private key is accepted as a public one and halved
  (`ExtendedKey.LoadPublicOfPrivate`, `PublicRoundTrip`).
- Clock value 0 reads as "not used" in the cache, so the first key ever touched can be purged
  by a slot left behind, again and again (`HDKeyCache.CachedExactly`, `StoreLost`,
  `LookupLost`); every other key is cached exactly while it is recent (`LruExactly`).
- The public Taproot tweak prints x without padding, while reading wants 32 bytes
  (`Taproot.TweakedKeyReadable`, `PrintedKeyRefused`).

## Model

| member | source | states |
|---|---|---|
| `PolyMod.StepInjective` | packages/bitcore-lib-cash/lib/address.js:800-819 | two registers that a step with the same symbol makes equal were equal: the symbol shifted out can be read back, because the generators end in 1, 2, 4, 8 and 16 |
| `PolyMod.StepSameTop` | packages/bitcore-lib-cash/lib/address.js:800-819 | registers with equal top symbols differ after a step by their old difference, shifted |
| `PolyMod.TapsDouble` | packages/bitcore-lib-cash/lib/address.js:794-818 | what a symbol feeds back is linear over the field of 32 elements, where a^5 + a^3 + 1 = 0: doubling the symbol shifted out doubles every symbol fed back |
| `PolyMod.TapsAreProducts` | packages/bitcore-lib-cash/lib/address.js:794-818 | feeding back a symbol multiplies the coefficients 19, 3, 25, 11, 25, 3, 19, 1 of the generator polynomial by it in that field; this fixes all five generator constants |
| `PolyMod.RunInjective` | packages/bitcore-lib-cash/lib/address.js:800-819 | a word of any length maps different registers to different registers |
| `PolyMod.WindowDifference` | packages/bitcore-lib-cash/lib/address.js:800-819 | up to eight symbols read from one register leave exactly their own difference in it |
| `PolyMod.BurstDetected` | packages/bitcore-lib-cash/lib/address.js:797-831 | words of equal length that differ, and only within eight consecutive symbols, have different checksums, at any length |
| `PolyMod.ChecksumTail` | packages/bitcore-lib-cash/lib/address.js:724-730 | the last eight symbols are added to the checksum unchanged |
| `PolyMod.ChecksumComplete` | packages/bitcore-lib-cash/lib/address.js:724-730 | a word is valid with a tail of eight symbols if and only if the tail is the checksum over eight zeros in its place |
| `PolyMod.PrefixesSeparated` | packages/bitcore-lib-cash/lib/address.js:358-372 | prefixes that leave different registers give every payload different checksums |
| `PolyMod.InsertedZeroUndetected` | packages/bitcore-lib-cash/lib/address.js:797-831 | a zero symbol inserted before the last symbol of a valid word goes unnoticed if and only if that last symbol is 1 |
| `AddressTexts.InsertedZeroRejected` | packages/bitcore-lib-cash/lib/address.js:374-378 | parsing rejects it all the same, by the length |
| `AddressTexts.InsertionDetected` | packages/bitcore-lib-cash/lib/address.js:374-378 | no two accepted payloads under a prefix share the first two characters and differ in length, so characters inserted or dropped behind them are noticed whatever the checksum says |
| `AddressTexts.AcceptedLength` | packages/bitcore-lib-cash/lib/address.js:374-378 | the number of payload characters is determined by the number of hash bytes |
| `PolyModWords.AddTaps` | packages/bitcore-lib-cash/lib/address.js:813-818 | the inner loop on two int32 words adds the generators of the symbol shifted out to the 40-bit register |
| `PolyModWords.StepWords` | packages/bitcore-lib-cash/lib/address.js:800-819 | on the words of 8 and 32 bits a step is what the CashAddr specification writes down for its 40-bit register, with its five constants |
| `PolyModWords.AbsorbSymbol` | packages/bitcore-lib-cash/lib/address.js:801-818 | one round on the two words is one step of the 40-bit register |
| `PolyModWords.AbsorbAll` | packages/bitcore-lib-cash/lib/address.js:799-819 | the two words after the loop are those of the register after all symbols |
| `PolyModWords.Unsigned` | packages/bitcore-lib-cash/lib/address.js:821-825 | the sign repair turns an int32 into the unsigned number of its 32 bits |
| `PolyModWords.Polymod` | packages/bitcore-lib-cash/lib/address.js:797-831 | the result is the CashAddr checksum read as a number; it lies in [0, 2^40) and is 0 if and only if the checksum is |
| `PolyModWords.ChecksumToArray` | packages/bitcore-lib-cash/lib/address.js:779-786 | dividing by 32 without truncating yields the eight base-32 digits, most significant first |
| `PolyModWords.DigitsOfNumber` | packages/bitcore-lib-cash/lib/address.js:779-786 | the digits of the number of a word are the word, so checksumToArray undoes the reading as a number |
| `PolyModWords.WordsNumber` | packages/bitcore-lib-cash/lib/address.js:826-830 | high word times 2^32 plus unsigned low word is the base-32 number of the register |
| `ConvertBits.Emit` | packages/bitcore-lib-cash/lib/util/convertBits.js:49-52 | the inner loop emits the complete groups of the bits read from the accumulator and leaves the rest |
| `ConvertBits.ShiftIn` | packages/bitcore-lib-cash/lib/util/convertBits.js:47 | shift and bitwise or leave in the int32 what 32 bits keep of the pending bits followed by those of the value, the sign being read back above them |
| `ConvertBits.AbsorbValue` | packages/bitcore-lib-cash/lib/util/convertBits.js:47-52 | one round emits the groups of these bits and leaves their rest pending |
| `ConvertBits.Finish` | packages/bitcore-lib-cash/lib/util/convertBits.js:54-61 | padding of the rest with zeros, or the strict check that it is shorter than a group read and zero |
| `ConvertBits.ConvertBits` | packages/bitcore-lib-cash/lib/util/convertBits.js:37-62 | for all widths from 1 to 31 the code does, error cases included, what is specified on bit strings with 32 bits kept; where no pending bits are lost, as for widths with a sum of at most 32, this is the regrouping of the whole bit string |
| `ConvertBits.ConvertedExactly` | packages/bitcore-lib-cash/lib/util/convertBits.js:37-62 | without strict the result is that regrouping if and only if no pending bits are lost |
| `ConvertBits.ConvertNumber` | packages/bitcore-lib-cash/lib/util/convertBits.js:46-57 | numerically: regrouping with padding takes the number that the data spell, multiplied by a power of two below the new base, and writes it to the new base |
| `ConvertBits.StrictRefused` | packages/bitcore-lib-cash/lib/util/convertBits.js:59 | strict regrouping succeeds if and only if fewer bits than a value are left over and the number that the data spell is divisible by the corresponding power of two |
| `ConvertBits.AcceptedExactly` | packages/bitcore-lib-cash/lib/util/convertBits.js:45 | a value passes the range test if and only if it is not negative and its low 32 bits are below the base, because the test shifts an int32 |
| `ConvertBits.BadValueExactly` | packages/bitcore-lib-cash/lib/util/convertBits.js:45 | the conversion is refused for it if and only if some value does not pass |
| `ConvertBits.BitsLost` | packages/bitcore-lib-cash/lib/util/convertBits.js:47 | an instance of loss, from 31 to 30 bits |
| `ConvertBits.OrAppends` | packages/bitcore-lib-cash/lib/util/convertBits.js:47 | the bitwise or of the shifted accumulator and the value appends the bits of the value |
| `ConvertBits.LowBitsShiftIn` | packages/bitcore-lib-cash/lib/util/convertBits.js:47 | shifting a value into an accumulator that wraps at 32 bits appends its bits to the pending ones |
| `ConvertBits.RegroupUnique` | packages/bitcore-lib-cash/lib/util/convertBits.js:49-52 | the groups are the only numbers in range that spell the bits |
| `ConvertBits.SplitThenJoin` | packages/bitcore-lib-cash/lib/util/convertBits.js:37-62 | regrouping into narrower groups with padding and strictly back is the identity, for all widths up to 31 |
| `ConvertBits.JoinThenSplit` | packages/bitcore-lib-cash/lib/util/convertBits.js:54-61 | what strict regrouping accepts is exactly the padded form of its result |
| `Base32.DecodeEncode` | packages/bitcore-lib-cash/lib/util/base32.js:33-58 | decoding an encoded list of symbols returns it |
| `Base32.EncodeDecode` | packages/bitcore-lib-cash/lib/util/base32.js:33-58 | encoding a decoded text returns it, and decoding yields symbols below 32 |
| `Base32.EncodeAll` | packages/bitcore-lib-cash/test/base32.js:16-23 | the 32 symbols in order encode to the alphabet as the library's tests have it |
| `Base32.EncodeText` | packages/bitcore-lib-cash/lib/util/base32.js:33-42 | the loop encodes symbol by symbol and fails on the first value out of range |
| `Base32.DecodeText` | packages/bitcore-lib-cash/lib/util/base32.js:49-58 | the loop decodes character by character and fails on the first unknown one |
| `CashAddress.PrefixToArray` | packages/bitcore-lib-cash/lib/networks.js:66-72 | the five low bits of every character |
| `CashAddress.PayloadRoundTrip` | packages/bitcore-lib-cash/lib/address.js:724-730 | a printed payload is valid for its prefix and, without its checksum, regroups strictly to version and hash |
| `CashAddress.DecodeEncode` | packages/bitcore-lib-cash/lib/address.js:316-405 | printing succeeds on every network with a proper prefix, for both types and all eight hash sizes; parsing the text returns hash, type and the network found under the prefix, and so does parsing it without a built-in prefix |
| `CashAddress.PrintSucceeds` | packages/bitcore-lib-cash/lib/address.js:701-736 | printing fails if and only if the network has no prefix or the hash none of the eight sizes, and for the first of these reasons |
| `CashAddress.EncodeDecode` | packages/bitcore-lib-cash/lib/address.js:374-404 | printing what was parsed, on the network it was found to be on, returns the parsed text if and only if its first payload character stands for less than 16, because the top bit of the version byte is not checked, and its prefix is that of the network, because any other value of the network is accepted in its place |
| `CashAddress.RespelledAsParsed` | packages/bitcore-lib-cash/lib/address.js:380-390 | under the prefix that was parsed only the first condition remains |
| `CashAddress.TwoSpellings` | packages/bitcore-lib-cash/lib/address.js:348-404 | a prefixed text means an address if and only if its prefix finds the network of the address in the registry and its payload is one of two, with the top bit of the version byte clear or set |
| `AddressTexts.PrintedRead` | packages/bitcore-lib-cash/lib/address.js:340-371 | under a prefix of any other form, what is printed can be parsed if and only if it is in one case and the prefix has no separator in it; the network is then sought under the prefix in lower case |
| `AddressTexts.BareSpellings` | packages/bitcore-lib-cash/lib/address.js:358-372 | a text without prefix means an address if and only if it is one of the two for a built-in prefix that finds its network |
| `AddressTexts.SecondSpelling` | packages/bitcore-lib-cash/lib/address.js:380-390 | for every address under every prefix there is a text with the top bit set that is read as this address and printed by no network |
| `AddressTexts.OtherNameAccepted` | packages/bitcore-lib-cash/lib/address.js:393-404 | for every address under every other value of its network there is a text with the top bit clear that is read as this address and printed differently |
| `AddressTexts.MainnetAccepted` | packages/bitcore-lib-cash/lib/address.js:393-404 | the alias of the built-in main network is such a value |
| `AddressTexts.FromStringPrinted` | packages/bitcore-lib-cash/lib/address.js:418-451 | on a registered network with a proper prefix the string constructor reads a printed address if and only if it has at most 100 characters |
| `AddressTexts.StringLengths` | packages/bitcore-lib-cash/lib/address.js:422-450 | without white space at its ends, a string of 34 or 35 characters is left to base 58, one of 36 to 100 is parsed on a network that must be registered, and all others are refused |
| `AddressTexts.Trimmed` | packages/bitcore-lib-cash/lib/address.js:430 | what is trimmed away is white space at both ends, and all of it |
| `AddressTexts.LivenetReadable` | packages/bitcore-lib-cash/lib/address.js:418-451 | on the main network these are hashes of up to 48 bytes, or up to 56 with the prefix stripped; the other printed addresses cannot be read back |
| `CashAddress.FirstSpellingPrinted` | packages/bitcore-lib-cash/lib/address.js:689-736 | the spelling with the top bit clear is what is printed |
| `CashAddress.SpellingsDiffer` | packages/bitcore-lib-cash/lib/address.js:374-392 | the two spellings are different texts |
| `CashAddress.PrefixUnique` | packages/bitcore-lib-cash/lib/address.js:358-372 | no payload is valid for two of the built-in prefixes |
| `CashAddress.RecoverPrefix` | packages/bitcore-lib-cash/lib/address.js:362-371 | the loop over the networks finds a built-in prefix if and only if the payload is valid for it |
| `CashAddress.StrippedLikePrefixed` | packages/bitcore-lib-cash/lib/address.js:348-372 | an address of a built-in network parses to the same result without its prefix |
| `CashAddress.TypoDetected` | packages/bitcore-lib-cash/lib/address.js:358-359 | a change within eight neighbouring characters of an accepted payload is rejected, whatever the prefix and length |
| `CashAddress.Accepted` | packages/bitcore-lib-cash/lib/address.js:356-394 | everything that a successful parse has checked: alphabet, checksum, padding, size, type |
| `CashAddress.ChecksumDetermined` | packages/bitcore-lib-cash/lib/address.js:327-338 | a payload is valid for a prefix if and only if its last eight symbols are the checksum of the rest |
| `CashAddress.DecodeUpper` | packages/bitcore-lib-cash/lib/address.js:340-341 | the upper-case form parses like the lower-case form |
| `CashAddress.PrintPayload` | packages/bitcore-lib-cash/lib/address.js:724-730 | version and hash regrouped, followed by their checksum |
| `CashAddress.Print` | packages/bitcore-lib-cash/lib/address.js:689-736 | the code prints the specified address under the prefix of its network, or throws without one |
| `CashAddress.IsValidChecksum` | packages/bitcore-lib-cash/lib/address.js:327-338 | the test on the number is the test on the checksum of prefix, zero and payload |
| `CashAddress.FindPrefix` | packages/bitcore-lib-cash/lib/address.js:362-371 | the loop over the three names is the search for the first prefix that fits |
| `CashAddress.ReadPayload` | packages/bitcore-lib-cash/lib/address.js:374-404 | regrouping, size check and type check in the order of the code |
| `CashAddress.Parse` | packages/bitcore-lib-cash/lib/address.js:316-405 | the code parses as specified, with every error in its order |
| `AddressErrors.MixedCaseRefused` | packages/bitcore-lib-cash/lib/address.js:319-325 | a text is refused for mixed case if and only if it holds a character between A and Z and one between a and z |
| `AddressErrors.CaseIgnored` | packages/bitcore-lib-cash/lib/address.js:340-341 | texts that differ only in the case of letters, neither of them mixed, parse alike |
| `AddressErrors.FormatRefused` | packages/bitcore-lib-cash/lib/address.js:343-344 | a text is refused for its format if and only if it holds two separators and its case is not mixed |
| `AddressErrors.CharacterRefused` | packages/bitcore-lib-cash/lib/address.js:356 | a text is refused for a character if and only if, behind the last separator, it holds another than the letters of either case and the digits without 1, b, i and o, and none of the earlier tests fails |
| `AddressErrors.EmptyPrefix` | packages/bitcore-lib-cash/lib/address.js:348-372 | an empty prefix counts as none |
| `AddressErrors.PayloadRefused` | packages/bitcore-lib-cash/lib/address.js:358-392 | the remaining refusals of a prefixed text in the order of the code, bits left over being told by the number that the symbols spell |
| `AddressErrors.RecoverExactly` | packages/bitcore-lib-cash/lib/address.js:362-371 | guessing the prefix throws at the first of the three networks that is missing or has no prefix, unless one before it fits, and fails if and only if all three have prefixes that do not fit |
| `AddressErrors.HashSizes` | packages/bitcore-lib-cash/lib/address.js:751-770 | the eight sizes are 160, 192, 224 and 256 bits and their doubles, in this order, when printed and when read |
| `AddressErrors.TypeMask` | packages/bitcore-lib-cash/lib/address.js:380-389 | a version byte is of a known type if and only if its bits 3 to 6 are 0 or 1 |
| `AddressErrors.VersionLayout` | packages/bitcore-lib-cash/lib/address.js:690-726 | a printed version byte has the top bit clear, then the type, then the size, from which the length of the hash is computed |
| `KnownAddress.KnownPrinted` | packages/bitcore-lib-cash/test/data/cashaddr.json:2-7 | the first test vector of the library: its hash is printed as its address |
| `KnownAddress.KnownRead` | packages/bitcore-lib-cash/test/data/cashaddr.json:2-7 | and the address is read back, with its prefix and without |
| `NetworkRegistry.GetIsScan` | packages/bitcore-lib-redd/lib/networks.js:42-46 | while list and index are in step, a look-up in the index is the earliest registered network with that value |
| `NetworkRegistry.AddValid` | packages/bitcore-lib-redd/lib/networks.js:80-133 | adding a network with its variants, nested ones included, keeps list and index in step |
| `NetworkVariants.AddLists` | packages/bitcore-lib-redd/lib/networks.js:80-133 | adding a network grows the list by the network and its variants, nested ones included, in the order of the data, each with the fields that its own data override |
| `NetworkVariants.VariantAdded` | packages/bitcore-lib-redd/lib/networks.js:124-130 | a variant without nested ones adds exactly the network whose every field is the variant's where the variant has it and its network's elsewhere, filed under its own name |
| `NetworkVariants.CopiedExactly` | packages/bitcore-lib-cash/lib/networks.js:98-130 | a network takes over exactly the fields of its library that its data have, but no empty prefix or port |
| `NetworkVariants.FirstHolderExactly` | packages/bitcore-lib-redd/lib/networks.js:42-43 | the scan that the index stands for gives the first network in the list with a field of that text |
| `NetworkVariants.FirstWithExactly` | packages/bitcore-lib-redd/lib/networks.js:31-41 | the look-up in given fields gives the first network in the list that has the value in one of them |
| `NetworkVariants.LookupOfNetwork` | packages/bitcore-lib-redd/lib/networks.js:27-47 | a registered network finds itself; another one is sought by its name, or by the text of a missing one |
| `NetworkRegistry.WithoutMiddle` | packages/bitcore-lib-redd/lib/networks.js:145-149 | taking a network out of the list keeps the order of the others |
| `NetworkRegistry.RemoveValid` | packages/bitcore-lib-redd/lib/networks.js:141-163 | removing a registered network keeps them in step if and only if no two of its fields hold the same string |
| `NetworkRegistry.RemoveUnregistered` | packages/bitcore-lib-redd/lib/networks.js:141-163 | removing a network that is not registered changes nothing |
| `NetworkRegistry.GetAfterRemove` | packages/bitcore-lib-redd/lib/networks.js:141-163 | every answer after a removal, the stale ones included |
| `NetworkRegistry.ScanAfterRemove` | packages/bitcore-lib-redd/lib/networks.js:141-163 | all look-ups agree with the list after a removal if and only if the removed network was not the first holder of a string that it held twice |
| `NetworkRegistry.RemoveUndoesAdd` | packages/bitcore-lib-redd/lib/networks.js:80-163 | removing the network just added restores the list, and the index if and only if its strings differ |
| `NetworkRegistry.RunIsScan` | packages/bitcore-lib-redd/lib/networks.js:27-163 | after every run of adds and removals without such a network, look-ups are scans of the list |
| `NetworkRegistry.ValidExactly` | packages/bitcore-lib-redd/lib/networks.js:27-163 | list and index are in step all through a run if and only if it removes no such network |
| `NetworkRegistry.RunOrderly` | packages/bitcore-lib-redd/lib/networks.js:80-163 | after every run whatsoever the list has no network twice and the index no empty bucket |
| `NetworkRegistry.Networks.constructor` | packages/bitcore-lib-redd/lib/networks.js:4-5 | an empty registry is in step |
| `NetworkRegistry.Networks.AddNetwork` | packages/bitcore-lib-redd/lib/networks.js:80-133 | the loops over field values and variants file the network and its variants in order |
| `NetworkRegistry.Networks.GetNetwork` | packages/bitcore-lib-redd/lib/networks.js:27-47 | a registered network finds itself; a value is looked up in the index or, with field names, in the list, where comparison does not convert |
| `NetworkRegistry.LookupsAgree` | packages/bitcore-lib-redd/lib/networks.js:31-46 | both ways agree if and only if the network that the index gives, if any, holds the value as such in one of the fields |
| `NetworkRegistry.Networks.RemoveNetwork` | packages/bitcore-lib-redd/lib/networks.js:141-163 | the two loops take the network out of the list and one occurrence of it out of every bucket |
| `NetworkRegistry.Networks.UnfileKey` | packages/bitcore-lib-redd/lib/networks.js:151-158 | one bucket loses its first occurrence of the network, and disappears when empty; no other bucket changes |
| `NetworkRegistry.Networks.Unlist` | packages/bitcore-lib-redd/lib/networks.js:145-149 | splicing while counting on removes the one occurrence in the list |
| `BuiltInNetworks.AddKeepsAnswers` | packages/bitcore-lib-redd/lib/networks.js:80-133 | adding takes no value away from an earlier network |
| `BuiltInNetworks.KnowsItsPrefixes` | packages/bitcore-lib-cash/lib/networks.js:194-279 | the registry as loaded is in step and has the three prefixes under livenet, testnet and regtest |
| `BuiltInNetworks.RemovedStillFound` | packages/bitcore-lib-redd/lib/networks.js:141-163 | a network that is the first to hold a string and holds it twice is found under it even after its removal |
| `BuiltInNetworks.MainnetFound` | packages/bitcore-lib-cash/lib/networks.js:194-207 | alias and prefix of the main network find the same network |
| `NetworkVariants.CashVariantsFound` | packages/bitcore-lib-cash/lib/networks.js:215-249 | in the registry as loaded testnet3, testnet4, scalenet and chipnet are each found under their own name, with their own port and the prefix of the testnet |
| `NetworkVariants.ReddVariantsFound` | packages/bitcore-lib-redd/lib/networks.js:200-233 | and so are testnet3, signet and testnet4 in the other library |
| `NetworkVariants.LivenetFound` | packages/bitcore-lib-cash/lib/networks.js:194-207 | the main network is found under every value of its data |
| `NetworkVariants.ReddLivenetFound` | packages/bitcore-lib-redd/lib/networks.js:165-182 | and so is that of the other library |
| `NetworkVariants.LivenetNumbers` | packages/bitcore-lib-cash/lib/networks.js:194-207 | among them its version numbers and port in decimal digits |
| `BuiltInNetworks.RemovedTestnetFound` | packages/bitcore-lib-cash/lib/networks.js:194-279 | in the registry as loaded the testnet is such a network |
| `BuiltInNetworks.RemovedReddTestnetFound` | packages/bitcore-lib-redd/lib/networks.js:165-257 | and so it is in the other library |
| `Bytes.SizedLength` | packages/bitcore-lib-redd/lib/crypto/bn.js:74-97 | a sized buffer has that size if and only if the number fits; it is never cut |
| `Bytes.SizedIsMinimal` | packages/bitcore-lib-redd/lib/crypto/bn.js:74-97 | padding changes nothing if and only if the number fills the size |
| `Bytes.FromSized` | packages/bitcore-lib-redd/lib/crypto/bn.js:30-39 | reading a sized buffer returns the number |
| `Bytes.FromBufferInjective` | packages/bitcore-lib-redd/lib/crypto/bn.js:30-39 | buffers of one length are read as different numbers |
| `Bytes.Index32Injective` | packages/bitcore-lib-redd/lib/util/buffer.js:105-113 | the four bytes determine an index below 2^32 |
| `Curve.ModuloIsRemainder` | packages/bitcore-lib-redd/lib/hdprivatekey.js:256 | the reduction modulo the order, written as repeated subtraction, is the remainder |
| `Curve.Homomorphism` | packages/bitcore-lib-redd/lib/hdpublickey.js:168 | multiples of the base point add like their scalars |
| `Curve.DecompressCompress` | packages/bitcore-lib-redd/lib/crypto/point.js:146-158 | a compressed point has 33 bytes and decompresses to itself |
| `Curve.CompressLayout` | packages/bitcore-lib-redd/lib/crypto/point.js:146-158 | a compressed point is a byte for the parity of y, 3 or 2, and x in 32 bytes |
| `Curve.MulCounts` | packages/bitcore-lib-redd/lib/hdpublickey.js:168 | a multiple of the base point is reached by adding it that many times |
| `Bip32.RetryIsLeast` | packages/bitcore-lib-redd/lib/hdprivatekey.js:223-275 | derivation ends; it returns the child at the least index from the start whose scalar is not zero, and fails if and only if there is none below 2^32 |
| `Bip32.PublicRetryIsLeast` | packages/bitcore-lib-redd/lib/hdpublickey.js:152-183 | for every public key, derivation ends with the child at the least non-hardened index from the start whose point is not infinity, and fails if and only if there is none |
| `Bip32.HardenedFlag` | packages/bitcore-lib-redd/lib/hdprivatekey.js:226-233 | an index below 2^31 with the flag is that index plus 2^31 |
| `Bip32.HardenedAlready` | packages/bitcore-lib-redd/lib/hdprivatekey.js:230 | from 2^31 on the flag changes nothing |
| `Bip32.PublicRefusals` | packages/bitcore-lib-redd/lib/hdpublickey.js:153-158 | public derivation refuses as an invalid path exactly the negative indexes without the flag, and as hardened all others with the flag or from 2^31 on |
| `Bip32.NegativeHardened` | packages/bitcore-lib-redd/lib/hdprivatekey.js:79-84 | a negative index passes validation if and only if the flag is set and it is at least -2^31; the child is then hashed as hardened and numbered as not, or, where its scalar is zero, the child at the least later index with another scalar |
| `Bip32Instances.NegativeDiffers` | packages/bitcore-lib-redd/lib/hdprivatekey.js:226-235 | an instance in which this is not the child that its number has |
| `Bip32Instances.RetryHardens` | packages/bitcore-lib-redd/lib/hdprivatekey.js:260-263 | an instance in which the retry at 2^31 - 1 gives a hardened child, and public derivation fails |
| `Bip32.NeuterCommutes` | packages/bitcore-lib-redd/lib/hdpublickey.js:152-183 | public derivation succeeds if and only if private derivation ends at a non-hardened index, and is then its public half in version, depth, parent fingerprint, index, chain code and point |
| `Bip32.NeuterCommutesOnPaths` | packages/bitcore-lib-redd/lib/hdpublickey.js:193-198 | the same along every list of indexes, skipped ones included |
| `Bip32.ReachableValid` | packages/bitcore-lib-redd/lib/privatekey.js:49-57 | every private key reachable by derivation lies between 1 and the order |
| `Bip32.PrivatePathConcat` | packages/bitcore-lib-redd/lib/hdprivatekey.js:282-287 | deriving along two lists is deriving along the one and then the other |
| `Bip32.SameChildData` | packages/bitcore-lib-redd/lib/hdprivatekey.js:237-249 | both forms hash the same data if and only if the child is not hardened or the key has a top byte |
| `Bip32.FormsAgree` | packages/bitcore-lib-redd/lib/hdprivatekey.js:187-275 | compliant and non-compliant derivation give the same child of keys with a top byte, and wherever the compliant one ends at a non-hardened index |
| `Bip32.FormsAgreeOnPaths` | packages/bitcore-lib-redd/lib/hdprivatekey.js:277-288 | the same along paths on which every step meets that condition |
| `Bip32Instances.FormsDiffer` | packages/bitcore-lib-redd/lib/hdprivatekey.js:237-246 | an instance with a short key in which the forms give different children |
| `Bip32Standard.HardenedData` | packages/bitcore-lib-redd/lib/hdprivatekey.js:242-246 | what is hashed for a hardened child of a valid key has 37 bytes: 0, the private key in 32, and the index in four |
| `Bip32Standard.PlainData` | packages/bitcore-lib-redd/lib/hdpublickey.js:160-161 | what is hashed for another child has 37 bytes: the parity and x of the point, and the index in four |
| `Bip32Standard.OlderData` | packages/bitcore-lib-redd/lib/hdprivatekey.js:237-241 | the older form hashes 0, the private key without leading zeros, and the index |
| `Bip32Standard.SameData` | packages/bitcore-lib-redd/lib/hdprivatekey.js:242-249 | both are the serialisations that BIP 32 gives, ser256, serP and ser32 being written down separately |
| `Bip32Standard.SizedIsSer` | packages/bitcore-lib-redd/lib/crypto/bn.js:74-97 | padding to a size is writing with that size wherever the number fits |
| `Bip32Standard.FromBufferParses` | packages/bitcore-lib-redd/lib/crypto/bn.js:30-39 | buffers are read as parse256 reads them |
| `Bip32Standard.SameChild` | packages/bitcore-lib-redd/lib/hdprivatekey.js:250-274 | version, depth, fingerprint, index, chain code and scalar of a child are those of CKDpriv of BIP 32, except that the standard has none where I_L is not below the order |
| `Bip32Standard.SamePublicChild` | packages/bitcore-lib-redd/lib/hdpublickey.js:162-182 | the same for CKDpub |
| `Bip32Standard.MatchesStandard` | packages/bitcore-lib-redd/lib/hdprivatekey.js:223-275 | against the standard's own functions, with its advice to proceed with the next index: the code returns the standard's child if and only if the I_L it used is below the order, and when it fails the standard has no child |
| `Bip32Standard.PublicMatchesStandard` | packages/bitcore-lib-redd/lib/hdpublickey.js:152-183 | the same comparison on the public side for every point on the curve |
| `Bip32Instances.StandardDiffers` | packages/bitcore-lib-redd/lib/hdprivatekey.js:256-263 | an instance in which an I_L above the order gives a child that the standard does not have |
| `DerivationPath.ParseOfStepText` | packages/bitcore-lib-redd/lib/hdprivatekey.js:109-123 | the text of an index, with a quote from 2^31 on, is read back |
| `DerivationPath.ParseStepExactly` | packages/bitcore-lib-redd/lib/hdprivatekey.js:109-123 | a step is read as an index if and only if it is decimal digits for it, or digits and a quote for it plus 2^31 |
| `DerivationPath.ParseExactly` | packages/bitcore-lib-redd/lib/hdprivatekey.js:98-126 | a text is a path to a list of indexes if and only if it is m, M, m' or M' and one step for each of them, with slashes between; all other texts are malformed |
| `DerivationPath.ValidPaths` | packages/bitcore-lib-redd/lib/hdprivatekey.js:73-86 | the valid paths are those with indexes below 2^32, and on the public side below 2^31 |
| `DerivationPath.TextRefusals` | packages/bitcore-lib-redd/lib/hdpublickey.js:185-191 | a quote is refused as hardened, even in a malformed path, and the other invalid paths as invalid |
| `Text.SplitJoin` | packages/bitcore-lib-redd/lib/hdprivatekey.js:99 | the pieces of a split text have no separator in them and joined by it are the text |
| `Text.ParseDecimalExactly` | packages/bitcore-lib-redd/lib/hdprivatekey.js:117 | the cast reads decimal digits as the number they stand for |
| `DerivationPath.ParseOfPathText` | packages/bitcore-lib-redd/lib/hdprivatekey.js:73-126 | every list of indexes is read back from its text, which is valid if and only if all are below 2^32 |
| `DerivationPath.DeriveTextConcat` | packages/bitcore-lib-redd/lib/hdprivatekey.js:277-288 | deriving by the text of p ++ q is deriving by the text of p and then by that of q |
| `DerivationPath.NeuterCommutesOnText` | packages/bitcore-lib-redd/lib/hdpublickey.js:185-199 | for every string: public derivation along it succeeds if and only if it has no quote, is valid and private derivation along it never hardens, and is then the public half |
| `ExtendedKey.ReserialisePrivate` | packages/bitcore-lib-redd/lib/hdprivatekey.js:378-392 | writing a loaded private payload clears byte 45 and nothing else, is the identity if and only if it was clear, and is idempotent |
| `ExtendedKey.ReserialisePublic` | packages/bitcore-lib-redd/lib/hdpublickey.js:292-306 | writing a loaded public payload is the identity, unless its version is that of a private key: then it is loaded as one and halved |
| `ExtendedKey.SliceConcatPrivate` | packages/bitcore-lib-redd/lib/hdprivatekey.js:464-468 | slicing what was concatenated returns all fields, and byte 45 is 0 |
| `ExtendedKey.SliceConcatPublic` | packages/bitcore-lib-redd/lib/hdpublickey.js:334-338 | slicing what was concatenated returns all fields |
| `ExtendedKey.PrivateFormat` | packages/bitcore-lib-redd/lib/hdprivatekey.js:464-468 | the bytes of a serialised private key: four of version, one of depth, four of fingerprint, four of index, 32 of chain code, a zero, and 32 of key |
| `ExtendedKey.PublicFormat` | packages/bitcore-lib-redd/lib/hdpublickey.js:334-338 | those of a public key: the same, with the parity and x of the point at the end |
| `ExtendedKey.NeuterFormat` | packages/bitcore-lib-redd/lib/hdpublickey.js:292-306 | the public half is written like the private key in bytes 4 to 44, with the xpubkey version and the point of the key |
| `ExtendedKey.LoadPrivateExactly` | packages/bitcore-lib-redd/lib/hdprivatekey.js:378-392 | data load if and only if there are 78 bytes, the last 32 of which are a number between 1 and the order; the fields are at their places |
| `ExtendedKey.LoadPublicExactly` | packages/bitcore-lib-redd/lib/hdpublickey.js:292-306 | data without the version of a private key load if and only if byte 45 is 2 or 3 and the last 32 decompress with that parity |
| `ExtendedKey.PrivateRoundTrip` | packages/bitcore-lib-redd/lib/hdprivatekey.js:464-482 | the serialised form of every valid private key loads, with its own fields |
| `ExtendedKey.PublicRoundTrip` | packages/bitcore-lib-redd/lib/hdpublickey.js:41-52 | the serialised form of every public key on the curve loads with its own fields, unless its version is that of a private key: then its x is taken for one |
| `ExtendedKey.LoadPublicOfPrivate` | packages/bitcore-lib-redd/lib/hdpublickey.js:41-52 | a serialised private key loads as the public half of its key if its version is known as private, and is refused otherwise |
| `ExtendedKey.PrivateInjective` | packages/bitcore-lib-redd/lib/hdprivatekey.js:464-479 | different private keys have different serialised forms |
| `ExtendedKey.PublicInjective` | packages/bitcore-lib-redd/lib/hdpublickey.js:334-350 | different public keys have different serialised forms |
| `ExtendedKey.KindsDiffer` | packages/bitcore-lib-redd/lib/hdprivatekey.js:464-467 | no private key has the serialised form of a public one |
| `HDKeyCache.SetValid` | packages/bitcore-lib-doge/lib/hdkeycache.js:19-44 | storing keeps the invariant: the erase pointer is max(0, count - size), every cached key has a live slot in the window that points back to it |
| `HDKeyCache.GetValid` | packages/bitcore-lib-doge/lib/hdkeycache.js:11-18 | so does looking up |
| `HDKeyCache.SizeBound` | packages/bitcore-lib-doge/lib/hdkeycache.js:34-44 | no map holds more than the configured number of entries |
| `HDKeyCache.HitLost` | packages/bitcore-lib-doge/lib/hdkeycache.js:14-17 | a look-up of a cached key returns its entry, except in exactly the states in which its own hit erases it |
| `HDKeyCache.CachedExactly` | packages/bitcore-lib-doge/lib/hdkeycache.js:11-44 | at every time every key is cached if and only if its last touch is among the `size` most recent ones and, for the first key ever touched, came after the last time that a slot left behind purged it |
| `HDKeyCache.StoreLost` | packages/bitcore-lib-doge/lib/hdkeycache.js:19-43 | storing keeps the entry unless exactly such a purge is due |
| `HDKeyCache.LookupLost` | packages/bitcore-lib-doge/lib/hdkeycache.js:14-17 | a look-up of a cached key returns nothing if and only if one is due |
| `HDKeyCache.LostAtOnce` | packages/bitcore-lib-doge/lib/hdkeycache.js:14-17 | an instance of a look-up that loses its entry |
| `HDKeyCache.StoredInVain` | packages/bitcore-lib-doge/lib/hdkeycache.js:19-24 | an instance of a store that loses its own entry |
| `HDKeyCache.CachedIsRecent` | packages/bitcore-lib-doge/lib/hdkeycache.js:25-44 | a cached key was touched within the last `size` touches, and its slot is its last touch |
| `HDKeyCache.ExactUnlessRetouched` | packages/bitcore-lib-doge/lib/hdkeycache.js:25-44 | a key that was not the first of all and touched again within the next `size` touches is cached if and only if recently touched, and owns at most one slot |
| `HDKeyCache.EvictedEarly` | packages/bitcore-lib-doge/lib/hdkeycache.js:26-28 | the exception: the first key, touched again early, is evicted when the window overflows, though recently touched |
| `HDKeyCache.FirstKeyLost` | packages/bitcore-lib-doge/lib/hdkeycache.js:26-28 | an instance of it with room for two |
| `HDKeyCache.LruExactly` | packages/bitcore-lib-doge/lib/hdkeycache.js:11-44 | throughout a history a key is treated as by an exact recency cache if and only if it is not that exception or the window never overflows |
| `HDKeyCache.RunIsHistory` | packages/bitcore-lib-doge/lib/hdkeycache.js:11-44 | every run of get and set is the history of its successful touches |
| `HDKeyCache.GetSubset` | packages/bitcore-lib-doge/lib/hdkeycache.js:11-18 | a look-up returns a stored entry and changes none |
| `HDKeyCache.CachedIsLastStored` | packages/bitcore-lib-doge/lib/hdkeycache.js:11-24 | in every run whatever is found under a key is what was last stored under it |
| `HDKeyCache.HDKeyCache.constructor` | packages/bitcore-lib-doge/lib/hdkeycache.js:4-9 | an empty cache has the invariant |
| `HDKeyCache.HDKeyCache.GetEntry` | packages/bitcore-lib-doge/lib/hdkeycache.js:11-18 | the code looks up, hits and reads again, and keeps the invariant |
| `HDKeyCache.HDKeyCache.SetEntry` | packages/bitcore-lib-doge/lib/hdkeycache.js:19-24 | the code stores and hits, and keeps the invariant |
| `HDKeyCache.HDKeyCache.CacheHit` | packages/bitcore-lib-doge/lib/hdkeycache.js:25-33 | frees the old slot unless it is 0, takes a new one, erases |
| `HDKeyCache.HDKeyCache.CacheRemove` | packages/bitcore-lib-doge/lib/hdkeycache.js:34-44 | the loop erases all slots before the window |
| `CachedDerivation.CacheKeyInjective` | packages/bitcore-lib-doge/lib/hdkeycache.js:12-13 | the key string determines extended key, index and flag |
| `CachedDerivation.KindsOfKeysDiffer` | packages/bitcore-lib-doge/lib/hdkeycache.js:12-13 | private and public derivations never share a key string |
| `CachedDerivation.CoherentSetPrivate` | packages/bitcore-lib-doge/lib/hdprivatekey.js:210-218 | storing a private child keeps every entry the child of its key, and never files it under a skipped index |
| `CachedDerivation.CoherentSetPublic` | packages/bitcore-lib-doge/lib/hdpublickey.js:179-187 | the same for public children |
| `CachedDerivation.PrivateTransparent` | packages/bitcore-lib-doge/lib/hdprivatekey.js:168-220 | from such a state private derivation returns what it returns without the cache, and leaves such a state |
| `CachedDerivation.PublicTransparent` | packages/bitcore-lib-doge/lib/hdpublickey.js:154-189 | the same for public derivation |
| `CachedDerivation.ResultProper` | packages/bitcore-lib-doge/lib/hdprivatekey.js:210-219 | what is derived may be derived from again |
| `CachedDerivation.PrivateStored` | packages/bitcore-lib-doge/lib/hdprivatekey.js:205-219 | a private child that had to be computed is stored, and the same request finds it from then on unless a purge is due |
| `CachedDerivation.PublicStored` | packages/bitcore-lib-doge/lib/hdpublickey.js:170-189 | the same for public children |
| `CachedDerivation.PrivateFound` | packages/bitcore-lib-doge/lib/hdprivatekey.js:180-183 | a request for a cached child takes it from the cache and counts as a use |
| `CachedDerivation.CacheIsInvisible` | packages/bitcore-lib-doge/lib/hdprivatekey.js:168-220 | in every interleaving of private and public derivations on one cache of any size, from any state without wrong entries, every result is the one without the cache |
| `CachedDerivation.CacheNeverNoticed` | packages/bitcore-lib-doge/lib/hdkeycache.js:4-9 | and so from the empty cache |
| `CachedDerivation.DerivePrivateWith` | packages/bitcore-lib-doge/lib/hdprivatekey.js:168-220 | the code on the shared cache object returns, and leaves in the cache, what the function that PrivateTransparent and CacheIsInvisible are about does |
| `CachedDerivation.DerivePublicWith` | packages/bitcore-lib-doge/lib/hdpublickey.js:154-189 | the same for the public code |
| `CachedDerivation.DerivePrivateMissed` | packages/bitcore-lib-doge/lib/hdprivatekey.js:185-219 | after a failed look-up the code skips the index without storing anything, or stores and returns its child |
| `Taproot.TweakHashExactly` | packages/bitcore-lib-redd/lib/publickey.js:332-348 | the tweak is the hash of x in 32 bytes followed by the Merkle root, or of x alone; a root of another length and a hash that is not below the order are refused |
| `Taproot.TweakCommits` | packages/bitcore-lib-redd/lib/publickey.js:332-348 | the same tweak for another x or another Merkle root, or for none, is a collision of the hash |
| `Taproot.EqualTweaks` | packages/bitcore-lib-redd/lib/publickey.js:332-348 | for a hash without collisions tweaks are equal if and only if x and root are |
| `Taproot.TaggedCollision` | packages/bitcore-lib-redd/lib/crypto/taggedhash.js:15-41 | a collision of the tagged hash is one of the hash under it |
| `Taproot.TweakFormulas` | packages/bitcore-lib-redd/lib/privatekey.js:395-412 | the formulas of BIP 341: the tweaked private key is the even one of d and n - d plus the hash, modulo n, and the tweaked point is its point |
| `Taproot.OutputCommits` | packages/bitcore-lib-redd/lib/publickey.js:358-370 | an output key that passes the check with two Merkle roots for one internal key and parity gives a collision of the hash |
| `Taproot.FromTaprootExactly` | packages/bitcore-lib-redd/lib/publickey.js:304-311 | output keys are read from exactly 32 bytes, as points with even y |
| `Taproot.TweaksCommute` | packages/bitcore-lib-redd/lib/privatekey.js:395-412 | whichever parity the untweaked point has, the point of the tweaked private key is the tweaked public point; the public side fails exactly when the hash or root is rejected or the tweaked key is 0 |
| `Taproot.TweakPrivateOfNegation` | packages/bitcore-lib-redd/lib/privatekey.js:396-398 | a private key and its negation have the same tweaked key |
| `Taproot.TweakedPointOfNegation` | packages/bitcore-lib-redd/lib/publickey.js:376-387 | the tweaked point depends on the x coordinate of the internal key only |
| `Taproot.InternalKeyAsBytes` | packages/bitcore-lib-redd/lib/publickey.js:358-366 | the check gives the same answer for the internal key as a point and as the 32 bytes of its x |
| `Taproot.CheckIsExact` | packages/bitcore-lib-redd/lib/publickey.js:358-370 | the check accepts if and only if the output x with the low control bit as parity is the tweaked point |
| `Taproot.TweakedKeyAccepted` | packages/bitcore-lib-redd/lib/publickey.js:358-387 | the public key of the tweaked private key passes the check with the printed parity and no other |
| `Taproot.TweakedKeyReadable` | packages/bitcore-lib-redd/lib/publickey.js:376-387 | the printed output key can be read back if and only if its x is at least 256^31, because it is printed without padding; it then passes the check |
| `Taproot.PrintedKeyRefused` | packages/bitcore-lib-redd/lib/publickey.js:304-311 | an instance in which the printed key is refused |
| `Taproot.LiftIsEven` | packages/bitcore-lib-redd/lib/crypto/point.js:161-181 | lifting the x of a point gives the one of the point and its negation with even y |
| `Taproot.SameX` | packages/bitcore-lib-redd/lib/crypto/point.js:161-181 | points share an x if and only if they are equal or negations |

## Left out

- Curve arithmetic, HMAC-SHA512, SHA-256 and RIPEMD-160: parameters of the model; what is proved holds for all of them. That they have no collisions is never assumed where a collision can be exhibited instead.
- Base58Check: not looked into; the cache proofs use only that different payloads have different encodings. The four checksum bytes of a serialised key are not part of its payload here.
- Bip32.FormsAgree: one direction only, because hash outputs that happen to coincide make the forms agree on short keys too; `SameChildData` has the exact condition for the hashed data and `FormsDiffer` an instance.
- Taproot.TweaksCommute: the tweaked private key is a number, without its 32-byte printing, which `Bytes.SizedLength` and `Bytes.FromSized` cover.
- ConvertBits.ConvertBits: group widths outside 1 to 31, for which JavaScript takes shift counts modulo 32.
- CashAddress.DecodeUpper: case mapping of ASCII letters only; Unicode case mapping is not part of this model.
- AddressErrors.MixedCaseRefused: as for DecodeUpper, other letters have no case here.
- CashAddress.Parse: the Buffer, object and transaction output forms of addresses, legacy base-58 addresses and the escrow constructors are not modelled, nor is the wording of errors.
- CashAddress.ToCashAddress: a network prefix that is a number instead of a string counts as missing.
- AddressTexts.FromStringPrinted: the constructor without a wanted network or type; prefixes with a blank at their start, which the constructor trims away, are not covered.
- DerivationPath.ParseOfPathText: numbers from 2^53 on, which JavaScript rounds, are read back exactly here; they are out of range either way.
- DerivationPath.ParseOfStepText: steps are decimal digits; other numerals that JavaScript casts to numbers (1e3, 0x10, blanks) count as malformed here.
- DerivationPath.NeuterCommutesOnText: as for ParseOfStepText, paths with other numerals count as malformed on both sides.
- NetworkRegistry.Networks.GetNetwork: names that every JavaScript object inherits are not modelled; the magic number and seed lists are objects and never indexed, so they are left out of the fields.
- NetworkRegistry.Networks.RemoveNetwork: its preconditions (no duplicate in the list, no empty bucket) hold after every run, by `RunOrderly`.
- Bip32.NeuterCommutes: a key carries its version bytes, and children inherit them; the way from a version number to a network and back is a parameter, the xpubkey number for an xprivkey number, and so are the xprivkey numbers of the main networks.
- ExtendedKey.PrivateRoundTrip: checks of network arguments, construction from JSON objects, and strings that happen to name a network are not modelled.
- CachedDerivation.CacheIsInvisible: keys in requests have fields of the sizes their constructors demand; object identity of cached results is not modelled.
- Lazy fields, random key generation and seeds, bech32 addresses, amounts, URIs, messages, opcodes, clients and command line tools: independent of the above or straight-line code.
- The copies of derivation in the other chain libraries: one model covers them.
