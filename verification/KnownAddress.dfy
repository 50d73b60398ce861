/** One address from the library's own tests, printed from its hash and read back: an instance
    that depends on every constant of the format. */
module KnownAddress {
  import opened Wrappers
  import opened Sequences
  import opened Bytes
  import opened PolyMod
  import opened PolyModWords
  import opened CashAddress
  import NetworkRegistry
  import ConvertBits
  import Base32

  const HASH: Buffer := [
    0xf5, 0xbf, 0x48, 0xb3, 0x97, 0xda, 0xe7, 0x0b, 0xe8, 0x2b,
    0x3c, 0xca, 0x47, 0x93, 0xf8, 0xeb, 0x2b, 0x6c, 0xda, 0xc9]

  const TEXT := "qr6m7j9njldwwzlg9v7v53unlr4jkmx6eylep8ekg2"

  // ----- the checksum, by the specified steps on the two words of the register

  datatype Symbols = End | Next(head: Symbol, tail: Symbols)

  function Listed(s: Symbols): Word {
    match s
    case End => []
    case Next(d, rest) => [d] + Listed(rest)
  }

  function Append(s: Symbols, t: Symbols): Symbols {
    match s
    case End => t
    case Next(d, rest) => Next(d, Append(rest, t))
  }

  function Fold(c0: Int32, c1: Int32, s: Symbols): (Int32, Int32)
    decreases s
  {
    match s
    case End => (c0, c1)
    case Next(d, rest) => Fold(SpecHigh(c0, c1), SpecLow(c0, c1, d), rest)
  }

  lemma {:induction false} FoldIsRun(r: Register, s: Symbols)
    ensures Fold(HighWord(r), LowWord(r), s) == (HighWord(Run(r, Listed(s))), LowWord(Run(r, Listed(s))))
    decreases s
  {
    match s
    case End =>
    case Next(d, rest) =>
      StepWords(r, d);
      FoldIsRun(Step(r, d), rest);
      RunConcat(r, [d], Listed(rest));
      assert Run(r, [d]) == Step(Run(r, []), d);
  }

  lemma {:induction false} ListedAppend(s: Symbols, t: Symbols)
    ensures Listed(Append(s, t)) == Listed(s) + Listed(t)
  {
    match s
    case End =>
    case Next(d, rest) => ListedAppend(rest, t);
  }

  lemma {:induction false} FoldAppend(c0: Int32, c1: Int32, s: Symbols, h: Int32, l: Int32, t: Symbols)
    requires Fold(c0, c1, s) == (h, l)
    ensures Fold(c0, c1, Append(s, t)) == Fold(h, l, t)
    decreases s
  {
    match s
    case End =>
    case Next(d, rest) => FoldAppend(SpecHigh(c0, c1), SpecLow(c0, c1, d), rest, h, l, t);
  }

  lemma WordsOfValid(w: Word)
    requires HighWord(Run(ONE, w)) == 0 && LowWord(Run(ONE, w)) == 1
    ensures Checksum(w) == Zeros(8)
  {
    WordsOfChecksum(w);
    WordsNumber(Checksum(w));
    NumberZero(Checksum(w));
  }

  /** What leaves the words of the start is valid. */
  lemma FoldedValid(s: Symbols)
    requires Fold(0, 1, s) == (0, 1)
    ensures Checksum(Listed(s)) == Zeros(8)
  {
    WordsOfOne();
    FoldIsRun(ONE, s);
    WordsOfValid(Listed(s));
  }

  // The symbols of the prefix, the separator and the payload, in parts.
  const PART0 := Next(2, Next(9, Next(20, Next(3, Next(15, Next(9, End))))))
  const PART1 := Next(14, Next(3, Next(1, Next(19, Next(8, Next(0, End))))))
  const PART2 := Next(0, Next(3, Next(26, Next(27, Next(30, Next(18, Next(5, Next(19, End))))))))
  const PART3 := Next(18, Next(31, Next(13, Next(14, Next(14, Next(2, Next(31, Next(8, End))))))))
  const PART4 := Next(5, Next(12, Next(30, Next(12, Next(20, Next(17, Next(28, Next(19, End))))))))
  const PART5 := Next(31, Next(3, Next(21, Next(18, Next(22, Next(27, Next(6, Next(26, End))))))))
  const PART6 := Next(25, Next(4, End))
  const PART7 := Next(31, Next(25, Next(1, Next(7, Next(25, Next(22, Next(8, Next(10, End))))))))

  const FROM6 := Append(PART6, PART7)
  const FROM5 := Append(PART5, FROM6)
  const FROM4 := Append(PART4, FROM5)
  const FROM3 := Append(PART3, FROM4)
  const FROM2 := Append(PART2, FROM3)
  const FROM1 := Append(PART1, FROM2)
  const FROM0 := Append(PART0, FROM1)

  lemma Fold0()
    ensures Fold(0x0, 0x1, PART0) == (0x0, 0x449a0de9)
    ensures Listed(PART0) == [2, 9, 20, 3, 15, 9]
  {
  }

  lemma Fold1()
    ensures Fold(0x0, 0x449a0de9, PART1) == (0xf6, 0x69cd6d15)
    ensures Listed(PART1) == [14, 3, 1, 19, 8, 0]
  {
  }

  lemma Fold2()
    ensures Fold(0xf6, 0x69cd6d15, PART2) == (0xed, 0xcfcd4650)
    ensures Listed(PART2) == [0, 3, 26, 27, 30, 18, 5, 19]
  {
  }

  lemma Fold3()
    ensures Fold(0xed, 0xcfcd4650, PART3) == (0x4a, 0xad83d843)
    ensures Listed(PART3) == [18, 31, 13, 14, 14, 2, 31, 8]
  {
  }

  lemma Fold4()
    ensures Fold(0x4a, 0xad83d843, PART4) == (0x93, 0x747b7ff6)
    ensures Listed(PART4) == [5, 12, 30, 12, 20, 17, 28, 19]
  {
  }

  lemma Fold5()
    ensures Fold(0x93, 0x747b7ff6, PART5) == (0x64, 0xd4f6fb9f)
    ensures Listed(PART5) == [31, 3, 21, 18, 22, 27, 6, 26]
  {
  }

  lemma Fold6()
    ensures Fold(0x64, 0xd4f6fb9f, PART6) == (0x41, 0xa48c547c)
    ensures Listed(PART6) == [25, 4]
  {
  }

  lemma Fold7()
    ensures Fold(0x41, 0xa48c547c, PART7) == (0x0, 0x1)
    ensures Listed(PART7) == [31, 25, 1, 7, 25, 22, 8, 10]
  {
  }

  lemma From6()
    ensures Fold(0x64, 0xd4f6fb9f, FROM6) == (0, 1)
    ensures Listed(FROM6) == [25, 4] + Listed(PART7)
  {
    Fold6();
    Fold7();
    FoldAppend(0x64, 0xd4f6fb9f, PART6, 0x41, 0xa48c547c, PART7);
    ListedAppend(PART6, PART7);
  }

  lemma From5()
    ensures Fold(0x93, 0x747b7ff6, FROM5) == (0, 1)
    ensures Listed(FROM5) == [31, 3, 21, 18, 22, 27, 6, 26] + Listed(FROM6)
  {
    Fold5();
    From6();
    FoldAppend(0x93, 0x747b7ff6, PART5, 0x64, 0xd4f6fb9f, FROM6);
    ListedAppend(PART5, FROM6);
  }

  lemma From4()
    ensures Fold(0x4a, 0xad83d843, FROM4) == (0, 1)
    ensures Listed(FROM4) == [5, 12, 30, 12, 20, 17, 28, 19] + Listed(FROM5)
  {
    Fold4();
    From5();
    FoldAppend(0x4a, 0xad83d843, PART4, 0x93, 0x747b7ff6, FROM5);
    ListedAppend(PART4, FROM5);
  }

  lemma From3()
    ensures Fold(0xed, 0xcfcd4650, FROM3) == (0, 1)
    ensures Listed(FROM3) == [18, 31, 13, 14, 14, 2, 31, 8] + Listed(FROM4)
  {
    Fold3();
    From4();
    FoldAppend(0xed, 0xcfcd4650, PART3, 0x4a, 0xad83d843, FROM4);
    ListedAppend(PART3, FROM4);
  }

  lemma From2()
    ensures Fold(0xf6, 0x69cd6d15, FROM2) == (0, 1)
    ensures Listed(FROM2) == [0, 3, 26, 27, 30, 18, 5, 19] + Listed(FROM3)
  {
    Fold2();
    From3();
    FoldAppend(0xf6, 0x69cd6d15, PART2, 0xed, 0xcfcd4650, FROM3);
    ListedAppend(PART2, FROM3);
  }

  lemma From1()
    ensures Fold(0x0, 0x449a0de9, FROM1) == (0, 1)
    ensures Listed(FROM1) == [14, 3, 1, 19, 8, 0] + Listed(FROM2)
  {
    Fold1();
    From2();
    FoldAppend(0x0, 0x449a0de9, PART1, 0xf6, 0x69cd6d15, FROM2);
    ListedAppend(PART1, FROM2);
  }

  lemma From0()
    ensures Fold(0x0, 0x1, FROM0) == (0, 1)
    ensures Listed(FROM0) == [2, 9, 20, 3, 15, 9] + Listed(FROM1)
  {
    Fold0();
    From1();
    FoldAppend(0x0, 0x1, PART0, 0x0, 0x449a0de9, FROM1);
    ListedAppend(PART0, FROM1);
  }

  // ----- the payload

  datatype Digits = Empty | Digit(head: int, tail: Digits)

  function Written(l: Digits): seq<int> {
    match l
    case Empty => []
    case Digit(n, rest) => [n] + Written(rest)
  }

  function Eval(number: int, l: Digits, base: int): int
    decreases l
  {
    match l
    case Empty => number
    case Digit(n, rest) => Eval(number * base + n, rest, base)
  }

  lemma {:induction false} EvalIsNumber(data: seq<int>, l: Digits, width: nat)
    ensures ConvertBits.Number(data + Written(l), width) == Eval(ConvertBits.Number(data, width), l, ConvertBits.Power(width))
    decreases l
  {
    match l
    case Empty => assert data + Written(l) == data;
    case Digit(n, rest) =>
      assert (data + [n])[..|data|] == data;
      EvalIsNumber(data + [n], rest, width);
      assert data + Written(l) == data + [n] + Written(rest);
  }

  lemma Widths()
    ensures ConvertBits.Power(8) == 256 && ConvertBits.Power(5) == 32 && ConvertBits.Power(2) == 4
  {
    Powers();
  }

  /** Bytes and symbols that spell the same number, up to the padding, spell the same bits. */
  lemma SameBlock(bytes: Digits, symbols: Digits, padding: nat)
    requires ConvertBits.InRange(Written(bytes), 8) && ConvertBits.InRange(Written(symbols), 5)
    requires |Written(symbols)| * 5 == |Written(bytes)| * 8 + padding
    requires Eval(0, symbols, 32) == Eval(0, bytes, 256) * ConvertBits.Power(padding)
    ensures ConvertBits.AllBits(Written(symbols), 5) == ConvertBits.AllBits(Written(bytes), 8) + ConvertBits.NoBits(padding)
  {
    Widths();
    EvalIsNumber([], bytes, 8);
    EvalIsNumber([], symbols, 5);
    assert [] + Written(bytes) == Written(bytes) && [] + Written(symbols) == Written(symbols);
    ConvertBits.NumberPadded(Written(bytes), Written(symbols), 8, 5, padding);
  }

  const B0: seq<int> := [0, 245, 191, 72, 179]
  const S0: seq<int> := [0, 3, 26, 27, 30, 18, 5, 19]
  const BYTES0 := Digit(0, Digit(245, Digit(191, Digit(72, Digit(179, Empty)))))
  const SYMBOLS0 := Digit(0, Digit(3, Digit(26, Digit(27, Digit(30, Digit(18, Digit(5, Digit(19, Empty))))))))
  const B1: seq<int> := [151, 218, 231, 11, 232]
  const S1: seq<int> := [18, 31, 13, 14, 14, 2, 31, 8]
  const BYTES1 := Digit(151, Digit(218, Digit(231, Digit(11, Digit(232, Empty)))))
  const SYMBOLS1 := Digit(18, Digit(31, Digit(13, Digit(14, Digit(14, Digit(2, Digit(31, Digit(8, Empty))))))))
  const B2: seq<int> := [43, 60, 202, 71, 147]
  const S2: seq<int> := [5, 12, 30, 12, 20, 17, 28, 19]
  const BYTES2 := Digit(43, Digit(60, Digit(202, Digit(71, Digit(147, Empty)))))
  const SYMBOLS2 := Digit(5, Digit(12, Digit(30, Digit(12, Digit(20, Digit(17, Digit(28, Digit(19, Empty))))))))
  const B3: seq<int> := [248, 235, 43, 108, 218]
  const S3: seq<int> := [31, 3, 21, 18, 22, 27, 6, 26]
  const BYTES3 := Digit(248, Digit(235, Digit(43, Digit(108, Digit(218, Empty)))))
  const SYMBOLS3 := Digit(31, Digit(3, Digit(21, Digit(18, Digit(22, Digit(27, Digit(6, Digit(26, Empty))))))))
  const B4: seq<int> := [201]
  const S4: seq<int> := [25, 4]
  const BYTES4 := Digit(201, Empty)
  const SYMBOLS4 := Digit(25, Digit(4, Empty))

  predicate Blocks(bytes: seq<int>, symbols: seq<int>, padding: nat) {
    && ConvertBits.AllBits(symbols, 5) == ConvertBits.AllBits(bytes, 8) + ConvertBits.NoBits(padding)
    && Base32.Encodable(symbols)
  }

  lemma Written0()
    ensures Written(BYTES0) == B0 && Written(SYMBOLS0) == S0
    ensures Eval(0, SYMBOLS0, 32) == Eval(0, BYTES0, 256)
  {
  }

  lemma Block0()
    ensures Blocks(B0, S0, 0)
  {
    Widths();
    Written0();
    SameBlock(BYTES0, SYMBOLS0, 0);
  }

  lemma Written1()
    ensures Written(BYTES1) == B1 && Written(SYMBOLS1) == S1
    ensures Eval(0, SYMBOLS1, 32) == Eval(0, BYTES1, 256)
  {
  }

  lemma Block1()
    ensures Blocks(B1, S1, 0)
  {
    Widths();
    Written1();
    SameBlock(BYTES1, SYMBOLS1, 0);
  }

  lemma Written2()
    ensures Written(BYTES2) == B2 && Written(SYMBOLS2) == S2
    ensures Eval(0, SYMBOLS2, 32) == Eval(0, BYTES2, 256)
  {
  }

  lemma Block2()
    ensures Blocks(B2, S2, 0)
  {
    Widths();
    Written2();
    SameBlock(BYTES2, SYMBOLS2, 0);
  }

  lemma Written3()
    ensures Written(BYTES3) == B3 && Written(SYMBOLS3) == S3
    ensures Eval(0, SYMBOLS3, 32) == Eval(0, BYTES3, 256)
  {
  }

  lemma Block3()
    ensures Blocks(B3, S3, 0)
  {
    Widths();
    Written3();
    SameBlock(BYTES3, SYMBOLS3, 0);
  }

  lemma Written4()
    ensures Written(BYTES4) == B4 && Written(SYMBOLS4) == S4
    ensures Eval(0, SYMBOLS4, 32) == Eval(0, BYTES4, 256) * 4
  {
  }

  lemma Block4()
    ensures Blocks(B4, S4, 2)
  {
    Widths();
    Written4();
    SameBlock(BYTES4, SYMBOLS4, 2);
  }

  // ----- the blocks together

  lemma TwoBlocks(bytes: seq<int>, symbols: seq<int>, more: seq<int>, others: seq<int>, padding: nat)
    requires Blocks(bytes, symbols, 0) && Blocks(more, others, padding)
    ensures Blocks(bytes + more, symbols + others, padding)
  {
    ConvertBits.AllBitsConcat(symbols, others, 5);
    ConvertBits.AllBitsConcat(bytes, more, 8);
    Associate(ConvertBits.AllBits(bytes, 8), ConvertBits.AllBits(more, 8), ConvertBits.NoBits(padding));
    assert ConvertBits.AllBits(bytes, 8) + ConvertBits.NoBits(0) == ConvertBits.AllBits(bytes, 8);
  }


  const DATA: seq<int> := S0 + (S1 + (S2 + (S3 + S4)))
  const TAIL: seq<int> := [31, 25, 1, 7, 25, 22, 8, 10]
  const PAYLOAD: seq<int> := DATA + TAIL

  lemma FiveBlocks(b0: seq<int>, s0: seq<int>, b1: seq<int>, s1: seq<int>, b2: seq<int>, s2: seq<int>,
                   b3: seq<int>, s3: seq<int>, b4: seq<int>, s4: seq<int>)
    requires Blocks(b0, s0, 0) && Blocks(b1, s1, 0) && Blocks(b2, s2, 0) && Blocks(b3, s3, 0) && Blocks(b4, s4, 2)
    ensures Blocks(b0 + (b1 + (b2 + (b3 + b4))), s0 + (s1 + (s2 + (s3 + s4))), 2)
  {
    TwoBlocks(b3, s3, b4, s4, 2);
    TwoBlocks(b2, s2, b3 + b4, s3 + s4, 2);
    TwoBlocks(b1, s1, b2 + (b3 + b4), s2 + (s3 + s4), 2);
    TwoBlocks(b0, s0, b1 + (b2 + (b3 + b4)), s1 + (s2 + (s3 + s4)), 2);
  }

  lemma VersionAndHash()
    ensures [0] + HASH == B0 + (B1 + (B2 + (B3 + B4)))
  {
  }

  lemma DataBlocks()
    ensures Blocks(B0 + (B1 + (B2 + (B3 + B4))), DATA, 2)
  {
    Block0();
    Block1();
    Block2();
    Block3();
    Block4();
    FiveBlocks(B0, S0, B1, S1, B2, S2, B3, S3, B4, S4);
  }

  lemma DataSpellsHash()
    ensures Blocks([0] + HASH, DATA, 2)
  {
    DataBlocks();
    VersionAndHash();
  }

  lemma Regrouped()
    ensures ConvertBits.Convert([0] + HASH, 8, 5, false) == Success(DATA)
  {
    DataSpellsHash();
    EncodableInRange(DATA);
    BytesInRange([0] + HASH);
    ConvertBits.ConvertSpelled([0] + HASH, DATA, 8, 5, 2);
  }

  // ----- the checksum of the whole

  lemma PrefixParts()
    ensures Listed(PART0) + Listed(PART1) == PrefixData("bitcoincash")
  {
    LivenetData();
    Fold0();
    Fold1();
  }

  lemma Part2()
    ensures Listed(PART2) == CashAddress.Symbols(S0)
  {
    Fold2();
    assert Numbers(Listed(PART2)) == S0;
    SymbolsOfNumbers(Listed(PART2));
  }

  lemma Part3()
    ensures Listed(PART3) == CashAddress.Symbols(S1)
  {
    Fold3();
    assert Numbers(Listed(PART3)) == S1;
    SymbolsOfNumbers(Listed(PART3));
  }

  lemma Part4()
    ensures Listed(PART4) == CashAddress.Symbols(S2)
  {
    Fold4();
    assert Numbers(Listed(PART4)) == S2;
    SymbolsOfNumbers(Listed(PART4));
  }

  lemma Part5()
    ensures Listed(PART5) == CashAddress.Symbols(S3)
  {
    Fold5();
    assert Numbers(Listed(PART5)) == S3;
    SymbolsOfNumbers(Listed(PART5));
  }

  lemma Part6()
    ensures Listed(PART6) == CashAddress.Symbols(S4)
  {
    Fold6();
    assert Numbers(Listed(PART6)) == S4;
    SymbolsOfNumbers(Listed(PART6));
  }

  lemma Part7()
    ensures Listed(PART7) == CashAddress.Symbols(TAIL)
  {
    Fold7();
    assert Numbers(Listed(PART7)) == TAIL;
    SymbolsOfNumbers(Listed(PART7));
  }

  lemma PayloadSymbols()
    ensures CashAddress.Symbols(PAYLOAD)
         == Listed(PART2) + (Listed(PART3) + (Listed(PART4) + (Listed(PART5) + Listed(PART6)))) + Listed(PART7)
  {
    Part2();
    Part3();
    Part4();
    Part5();
    Part6();
    Part7();
    SymbolsConcat(DATA, TAIL);
    SymbolsConcat(S0, S1 + (S2 + (S3 + S4)));
    SymbolsConcat(S1, S2 + (S3 + S4));
    SymbolsConcat(S2, S3 + S4);
    SymbolsConcat(S3, S4);
  }

  lemma ListedParts()
    ensures Listed(FROM0) == Listed(PART0) + (Listed(PART1) + (Listed(PART2) + (Listed(PART3) + (Listed(PART4)
                           + (Listed(PART5) + (Listed(PART6) + Listed(PART7)))))))
  {
    ListedAppend(PART0, FROM1);
    ListedAppend(PART1, FROM2);
    ListedAppend(PART2, FROM3);
    ListedAppend(PART3, FROM4);
    ListedAppend(PART4, FROM5);
    ListedAppend(PART5, FROM6);
    ListedAppend(PART6, PART7);
  }

  lemma Nested(a: Word, b: Word, c: Word, d: Word, e: Word, f: Word, g: Word, h: Word)
    ensures a + (b + (c + (d + (e + (f + (g + h)))))) == (a + b) + (c + (d + (e + (f + g))) + h)
  {
  }

  lemma PayloadValid()
    ensures ValidChecksum("bitcoincash", PAYLOAD)
  {
    From0();
    FoldedValid(FROM0);
    ListedParts();
    PayloadSymbols();
    PrefixParts();
    Nested(Listed(PART0), Listed(PART1), Listed(PART2), Listed(PART3), Listed(PART4), Listed(PART5), Listed(PART6), Listed(PART7));
  }

  // ----- the text

  lemma EncodeConcat(one: seq<int>, other: seq<int>, first: string, second: string)
    requires Base32.Encode(one) == Some(first) && Base32.Encode(other) == Some(second)
    ensures Base32.Encode(one + other) == Some(first + second)
  {
    assert Base32.Encode(one + other).value == first + second;
  }

  lemma TextS0()
    ensures Base32.Encode(S0) == Some("qr6m7j9n")
  {
    assert Base32.Encode(S0).value == "qr6m7j9n";
  }

  lemma TextS1()
    ensures Base32.Encode(S1) == Some("jldwwzlg")
  {
    assert Base32.Encode(S1).value == "jldwwzlg";
  }

  lemma TextS2()
    ensures Base32.Encode(S2) == Some("9v7v53un")
  {
    assert Base32.Encode(S2).value == "9v7v53un";
  }

  lemma TextS3()
    ensures Base32.Encode(S3) == Some("lr4jkmx6")
  {
    assert Base32.Encode(S3).value == "lr4jkmx6";
  }

  lemma TextS4()
    ensures Base32.Encode(S4) == Some("ey")
  {
    assert Base32.Encode(S4).value == "ey";
  }

  lemma TextTAIL()
    ensures Base32.Encode(TAIL) == Some("lep8ekg2")
  {
    assert Base32.Encode(TAIL).value == "lep8ekg2";
  }

  lemma TextParts()
    ensures TEXT == "qr6m7j9n" + ("jldwwzlg" + ("9v7v53un" + ("lr4jkmx6" + "ey"))) + "lep8ekg2"
  {
  }

  lemma PayloadText()
    ensures Base32.Encode(PAYLOAD) == Some(TEXT) && |DATA| == 34
  {
    TextS0();
    TextS1();
    TextS2();
    TextS3();
    TextS4();
    TextTAIL();
    EncodeConcat(S3, S4, "lr4jkmx6", "ey");
    EncodeConcat(S2, S3 + S4, "9v7v53un", "lr4jkmx6" + "ey");
    EncodeConcat(S1, S2 + (S3 + S4), "jldwwzlg", "9v7v53un" + ("lr4jkmx6" + "ey"));
    EncodeConcat(S0, S1 + (S2 + (S3 + S4)), "qr6m7j9n", "jldwwzlg" + ("9v7v53un" + ("lr4jkmx6" + "ey")));
    EncodeConcat(DATA, TAIL, "qr6m7j9n" + ("jldwwzlg" + ("9v7v53un" + ("lr4jkmx6" + "ey"))), "lep8ekg2");
    TextParts();
  }

  // ----- the address

  lemma PayloadOfHash()
    ensures Payload("bitcoincash", 0, HASH) == Some(PAYLOAD)
  {
    Regrouped();
    PayloadValid();
    PayloadText();
    assert DropChecksum(PAYLOAD) == DATA;
    ChecksumDetermined("bitcoincash", PAYLOAD);
  }

  /** The address is printed from its hash. */
  lemma KnownPrinted()
    ensures PrintWith("bitcoincash", PubKeyHash, HASH, true) == Success(TEXT)
    ensures PrintWith("bitcoincash", PubKeyHash, HASH, false) == Success("bitcoincash:" + TEXT)
  {
    PayloadOfHash();
    PayloadText();
    PrintedAs("bitcoincash", PubKeyHash, HASH, PAYLOAD);
    assert "bitcoincash" + ":" == "bitcoincash:";
  }

  /** And read back, with its prefix and without it. */
  lemma KnownRead(r: NetworkRegistry.Registry)
    requires KnowsBuiltIn(r)
    ensures Decode(r, "bitcoincash:" + TEXT) == Success(Info(HASH, PubKeyHash, NetworkRegistry.Get(r, "bitcoincash")))
    ensures Decode(r, TEXT) == Decode(r, "bitcoincash:" + TEXT)
  {
    KnownPrinted();
    var text := PrintedText(r, "bitcoincash", PubKeyHash, HASH);
    TextCase(text);
    BuiltInProper("bitcoincash");
    DecodePrefixed(r, "bitcoincash", text);
    StrippedLikePrefixed(r, "bitcoincash", text);
  }
}
