/** The base-32 alphabet of CashAddr payloads. */
module Base32 {
  import opened Wrappers

  const CHARSET: string := "qpzry9x8gf2tvdw0s3jn54khce6mua7l"

  const CHARSET_INVERSE_INDEX: map<char, nat> := map[
    'q' := 0, 'p' := 1, 'z' := 2, 'r' := 3, 'y' := 4, '9' := 5, 'x' := 6, '8' := 7,
    'g' := 8, 'f' := 9, '2' := 10, 't' := 11, 'v' := 12, 'd' := 13, 'w' := 14, '0' := 15,
    's' := 16, '3' := 17, 'j' := 18, 'n' := 19, '5' := 20, '4' := 21, 'k' := 22, 'h' := 23,
    'c' := 24, 'e' := 25, '6' := 26, 'm' := 27, 'u' := 28, 'a' := 29, '7' := 30, 'l' := 31
  ]

  lemma IndexOfLowSymbol(i: nat)
    requires i < 16
    ensures CHARSET[i] in CHARSET_INVERSE_INDEX && CHARSET_INVERSE_INDEX[CHARSET[i]] == i
  {
    if i < 4 {} else if i < 8 {} else if i < 12 {} else {}
  }

  lemma IndexOfHighSymbol(i: nat)
    requires 16 <= i < 32
    ensures CHARSET[i] in CHARSET_INVERSE_INDEX && CHARSET_INVERSE_INDEX[CHARSET[i]] == i
  {
    if i < 20 {} else if i < 24 {} else if i < 28 {} else {}
  }

  lemma IndexOfSymbol(i: nat)
    requires i < 32
    ensures CHARSET[i] in CHARSET_INVERSE_INDEX && CHARSET_INVERSE_INDEX[CHARSET[i]] == i
  {
    if i < 16 {
      IndexOfLowSymbol(i);
    } else {
      IndexOfHighSymbol(i);
    }
  }

  lemma SymbolOfIndex(c: char)
    requires c in CHARSET_INVERSE_INDEX
    ensures CHARSET_INVERSE_INDEX[c] < 32 && CHARSET[CHARSET_INVERSE_INDEX[c]] == c
  {
  }

  predicate Encodable(data: seq<int>) {
    forall i :: 0 <= i < |data| ==> 0 <= data[i] < 32
  }

  predicate Decodable(text: string) {
    forall i :: 0 <= i < |text| ==> text[i] in CHARSET_INVERSE_INDEX
  }

  function Encode(data: seq<int>): Option<string> {
    if Encodable(data) then Some(seq(|data|, i requires 0 <= i < |data| => CHARSET[data[i]])) else None
  }

  function Decode(text: string): Option<seq<int>> {
    if Decodable(text) then Some(seq(|text|, i requires 0 <= i < |text| => CHARSET_INVERSE_INDEX[text[i]])) else None
  }

  /** The alphabet in its order, as the tests of the library have it. */
  lemma EncodeAll()
    ensures Encode(seq(32, i => i)) == Some("qpzry9x8gf2tvdw0s3jn54khce6mua7l")
  {
    var text := Encode(seq(32, i => i)).value;
    assert text == CHARSET;
  }

  lemma DecodeEncode(data: seq<int>)
    requires Encodable(data)
    ensures Decode(Encode(data).value) == Some(data)
  {
    var text := Encode(data).value;
    forall i | 0 <= i < |text| ensures text[i] in CHARSET_INVERSE_INDEX && CHARSET_INVERSE_INDEX[text[i]] == data[i] {
      IndexOfSymbol(data[i]);
    }
    assert Decode(text).value == data;
  }

  lemma EncodeDecode(text: string)
    requires Decodable(text)
    ensures Encode(Decode(text).value) == Some(text) && Encodable(Decode(text).value)
  {
    var data := Decode(text).value;
    forall i | 0 <= i < |text| ensures 0 <= data[i] < 32 && CHARSET[data[i]] == text[i] {
      SymbolOfIndex(text[i]);
    }
    assert Encode(data).value == text;
  }

  method EncodeText(data: seq<int>) returns (base32: Option<string>)
    ensures base32 == Encode(data)
  {
    var text := "";
    for i := 0 to |data|
      invariant Encodable(data[..i]) && text == Encode(data[..i]).value
    {
      var value := data[i];
      if !(0 <= value < 32) {
        return None;
      }
      text := text + [CHARSET[value]];
    }
    assert data[..|data|] == data;
    base32 := Some(text);
  }

  method DecodeText(base32: string) returns (data: Option<seq<int>>)
    ensures data == Decode(base32)
  {
    var values: seq<int> := [];
    for i := 0 to |base32|
      invariant Decodable(base32[..i]) && values == Decode(base32[..i]).value
    {
      var value := base32[i];
      if value !in CHARSET_INVERSE_INDEX {
        return None;
      }
      values := values + [CHARSET_INVERSE_INDEX[value]];
    }
    assert base32[..|base32|] == base32;
    data := Some(values);
  }
}
