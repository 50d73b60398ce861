/** The few string operations the key and address code relies on. */
module Text {
  import opened Wrappers

  predicate IsDigit(c: char) {
    '0' <= c <= '9'
  }

  function DigitChar(d: nat): (c: char)
    requires d < 10
    ensures IsDigit(c)
  {
    '0' + d as char
  }

  /** A number turned into a string. */
  function Decimal(n: nat): (s: string)
    ensures s != [] && forall c :: c in s ==> IsDigit(c)
  {
    if n < 10 then [DigitChar(n)] else Decimal(n / 10) + [DigitChar(n % 10)]
  }

  /** The unary plus of JavaScript on strings of decimal digits. */
  function ParseDecimal(s: string): Option<nat> {
    if s == [] then None
    else
      var c := s[|s| - 1];
      if !IsDigit(c) then None
      else
        var d := c as int - '0' as int;
        if |s| == 1 then Some(d)
        else
          match ParseDecimal(s[..|s| - 1])
          case None => None
          case Some(n) => Some(10 * n + d)
  }

  lemma {:induction false} ParseOfDecimal(n: nat)
    ensures ParseDecimal(Decimal(n)) == Some(n)
  {
    if n >= 10 {
      ParseOfDecimal(n / 10);
      var s := Decimal(n);
      assert s[..|s| - 1] == Decimal(n / 10);
    }
  }

  function Power10(k: nat): nat {
    if k == 0 then 1 else 10 * Power10(k - 1)
  }

  predicate AllDigits(s: string) {
    forall i :: 0 <= i < |s| ==> IsDigit(s[i])
  }

  /** The number that decimal digits stand for. */
  function NumberOf(digits: string): nat
    requires AllDigits(digits)
  {
    if digits == [] then 0
    else (digits[0] as int - '0' as int) * Power10(|digits| - 1) + NumberOf(digits[1..])
  }

  lemma ShiftDigits(first: nat, rest: nat, last: nat, n: nat)
    ensures 10 * (first * Power10(n) + rest) + last == first * Power10(n + 1) + (10 * rest + last)
  {
    assert first * Power10(n + 1) == 10 * (first * Power10(n));
  }

  lemma {:induction false} NumberOfSnoc(digits: string, last: char)
    requires AllDigits(digits) && IsDigit(last)
    ensures AllDigits(digits + [last])
    ensures NumberOf(digits + [last]) == 10 * NumberOf(digits) + (last as int - '0' as int)
  {
    if digits == [] {
      assert [last][1..] == [] && [] + [last] == [last];
    } else {
      assert (digits + [last])[1..] == digits[1..] + [last];
      NumberOfSnoc(digits[1..], last);
      ShiftDigits(digits[0] as int - '0' as int, NumberOf(digits[1..]), last as int - '0' as int, |digits| - 1);
    }
  }

  /** Casting a string to a number reads decimal digits, and nothing else. */
  lemma {:induction false} ParseDecimalExactly(s: string)
    ensures ParseDecimal(s).Some? <==> s != [] && AllDigits(s)
    ensures s != [] && AllDigits(s) ==> ParseDecimal(s) == Some(NumberOf(s))
  {
    if s != [] {
      var n := |s| - 1;
      assert s == s[..n] + [s[n]];
      ParseDecimalExactly(s[..n]);
      if AllDigits(s) {
        NumberOfSnoc(s[..n], s[n]);
      }
    }
  }

  /** The digits in their order, the most significant first. */
  lemma DecimalDigits()
    ensures Decimal(1234567890) == "1234567890"
  {
    assert Decimal(12345) == "12345";
  }

  lemma DecimalInjective(m: nat, n: nat)
    requires Decimal(m) == Decimal(n)
    ensures m == n
  {
    ParseOfDecimal(m);
    ParseOfDecimal(n);
  }

  /** JavaScript's split at every occurrence of a separator; never empty. */
  function Split(s: string, separator: char): (pieces: seq<string>)
    ensures pieces != []
  {
    if separator !in s then [s]
    else
      var i := IndexOf(s, separator);
      [s[..i]] + Split(s[i + 1..], separator)
  }

  function Join(pieces: seq<string>, separator: char): string
    requires pieces != []
  {
    if |pieces| == 1 then pieces[0] else pieces[0] + [separator] + Join(pieces[1..], separator)
  }

  /** The pieces are what stands between the separators. */
  lemma {:induction false} SplitJoin(s: string, separator: char)
    ensures Join(Split(s, separator), separator) == s
    ensures forall k :: 0 <= k < |Split(s, separator)| ==> separator !in Split(s, separator)[k]
  {
    if separator in s {
      var i := IndexOf(s, separator);
      var rest := Split(s[i + 1..], separator);
      SplitJoin(s[i + 1..], separator);
      assert ([s[..i]] + rest)[1..] == rest;
      assert s == s[..i] + [separator] + s[i + 1..];
    }
  }

  function IndexOf(s: string, c: char): (i: nat)
    requires c in s
    ensures i < |s| && s[i] == c && c !in s[..i]
  {
    if s[0] == c then 0
    else
      assert s == [s[0]] + s[1..];
      var i := IndexOf(s[1..], c) + 1;
      assert s[..i] == [s[0]] + s[1..][..i - 1];
      i
  }

  lemma InPrefix(s: string, i: nat, j: nat)
    requires i < j <= |s|
    ensures s[i] in s[..j]
  {
    assert s[..j][i] == s[i];
  }

  /** A character that a prefix lacks occurs only behind the prefix. */
  lemma NotBefore(s: string, i: nat, j: nat)
    requires i < |s| && j <= |s| && s[i] !in s[..j]
    ensures j <= i
  {
    if i < j {
      InPrefix(s, i, j);
    }
  }

  lemma FirstIndex(s: string, separator: char, i: nat)
    requires i < |s| && s[i] == separator && separator !in s[..i]
    ensures separator in s && IndexOf(s, separator) == i
  {
    var j := IndexOf(s, separator);
    NotBefore(s, j, i);
    NotBefore(s, i, j);
  }

  lemma SplitAt(head: string, separator: char, tail: string)
    requires separator !in head
    ensures Split(head + [separator] + tail, separator) == [head] + Split(tail, separator)
  {
    var s := head + [separator] + tail;
    assert s[..|head|] == head && s[|head| + 1..] == tail;
    FirstIndex(s, separator, |head|);
  }

  lemma InSuffix(s: string, i: nat, j: nat)
    requires j < i < |s|
    ensures s[i] in s[j + 1..]
  {
    assert s[j + 1..][i - j - 1] == s[i];
  }

  lemma NotBehind(s: string, i: nat, j: nat)
    requires i < |s| && j < |s| && s[i] !in s[j + 1..]
    ensures i <= j
  {
    if i > j {
      InSuffix(s, i, j);
    }
  }

  /** Everything before and after the last separator is determined by the whole. */
  lemma LastPieceUnique(head: string, tail: string, head': string, tail': string, separator: char)
    requires head + [separator] + tail == head' + [separator] + tail'
    requires separator !in tail && separator !in tail'
    ensures head == head' && tail == tail'
  {
    var s := head + [separator] + tail;
    assert s[|head|] == separator && s[..|head|] == head && s[|head| + 1..] == tail;
    assert s[|head'|] == separator && s[..|head'|] == head' && s[|head'| + 1..] == tail';
    NotBehind(s, |head|, |head'|);
    NotBehind(s, |head'|, |head|);
  }
}
