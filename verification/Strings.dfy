/** Printing and parsing numbers in character buffers that end with a NUL. */
module Strings {
  import opened Words
  import opened Numerals
  import opened PlaceValues

  /** The buffer holds `text` and its NUL from `from` on. */
  ghost predicate TextAt(buffer: array<char>, from: nat, text: string)
    reads buffer
  {
    && from + |text| < buffer.Length
    && buffer[from..from + |text|] == text
    && buffer[from + |text|] == '\0'
    && NoNul(text)
  }

  ghost predicate NoNul(text: string) {
    forall k :: 0 <= k < |text| ==> text[k] != '\0'
  }

  /** A scan from the start of the text meets its characters, and then the NUL. */
  lemma Scanned(buffer: array<char>, from: nat, text: string, k: nat)
    requires TextAt(buffer, from, text) && from <= k <= from + |text|
    ensures buffer[k] == '\0' <==> k == from + |text|
    ensures k < from + |text| ==> buffer[k] == text[k - from] && text[..k - from + 1][..k - from] == text[..k - from]
    ensures text[..|text|] == text
  {
    if k < from + |text| {
      assert buffer[from..from + |text|][k - from] == buffer[k];
    }
  }

  method StringLength(buffer: array<char>, from: nat, ghost text: string) returns (n: nat)
    requires TextAt(buffer, from, text)
    ensures n == |text|
  {
    n := 0;
    while true
      invariant n <= |text|
      decreases |text| - n
    {
      Scanned(buffer, from, text, from + n);
      if buffer[from + n] == '\0' {
        return;
      }
      n := n + 1;
    }
  }

  /** Reverses the text that starts at `from` in place. */
  method ReverseString(buffer: array<char>, from: nat, ghost text: string)
    requires TextAt(buffer, from, text)
    modifies buffer
    ensures TextAt(buffer, from, Reversed(text))
    ensures forall k :: 0 <= k < from || from + |text| <= k < buffer.Length ==> buffer[k] == old(buffer[k])
  {
    var length := StringLength(buffer, from, text);
    ghost var held := text;
    for i := 0 to length / 2
      invariant |held| == length && held == buffer[from..from + length]
      invariant SwappedTo(held, text, i)
      invariant forall k :: 0 <= k < from || from + length <= k < buffer.Length ==> buffer[k] == old(buffer[k])
    {
      var c := buffer[from + i];
      assert c == held[i] && buffer[from + length - 1 - i] == held[length - 1 - i];
      buffer[from + i] := buffer[from + length - 1 - i];
      buffer[from + length - 1 - i] := c;
      held := held[i := held[length - 1 - i]][length - 1 - i := c];
    }
    BackwardsIsReversed(held, text);
  }

  /** The first and the last `i` characters have changed places. */
  ghost predicate SwappedTo(held: string, text: string, i: nat) {
    && |held| == |text|
    && forall k {:trigger held[k]} :: 0 <= k < |held| ==>
         held[k] == if k < i || k >= |text| - i then text[|text| - 1 - k] else text[k]
  }

  lemma BackwardsIsReversed(held: string, text: string)
    requires NoNul(text) && SwappedTo(held, text, |text| / 2)
    ensures held == Reversed(text) && NoNul(held)
  {
    forall k | 0 <= k < |text| ensures held[k] == Reversed(text)[k] {
      ReversedAt(text, k);
    }
  }

  /** Writes the digits of `value` from `from` on, lowest first, and the NUL behind them. */
  method WriteDigits(buffer: array<char>, from: nat, value: nat, base: Base) returns (end: nat)
    requires from + |LowFirst(value, base)| < buffer.Length
    modifies buffer
    ensures end == from + |LowFirst(value, base)| && TextAt(buffer, from, LowFirst(value, base))
    ensures forall k :: 0 <= k < from || end < k < buffer.Length ==> buffer[k] == old(buffer[k])
  {
    var rest: nat := value;
    end := from;
    ghost var text := LowFirst(value, base);
    while rest > 0
      invariant from <= end && end + |LowFirst(rest, base)| == from + |text|
      invariant text == buffer[from..end] + LowFirst(rest, base)
      invariant forall k :: 0 <= k < from || end <= k < buffer.Length ==> buffer[k] == old(buffer[k])
    {
      ghost var written := buffer[from..end];
      DigitWritten(rest, base, written);
      buffer[end] := DigitChar(LowDigit(rest, base));
      assert buffer[from..end + 1] == written + [DigitChar(LowDigit(rest, base))];
      rest := OtherDigits(rest, base);
      end := end + 1;
    }
    buffer[end] := '\0';
    LowFirstChars(value, base);
  }

  lemma DigitWritten(v: nat, base: Base, written: string)
    requires v > 0
    ensures |LowFirst(v, base)| == 1 + |LowFirst(OtherDigits(v, base), base)|
    ensures written + LowFirst(v, base)
            == written + [DigitChar(LowDigit(v, base))] + LowFirst(OtherDigits(v, base), base)
  {
  }

  method HexToString(value: nat, buffer: array<char>) returns (n: nat)
    requires value < QWORD && |HexText(value)| < buffer.Length
    modifies buffer
    ensures n == |HexText(value)| && TextAt(buffer, 0, HexText(value))
    ensures n < buffer.Length && HexNumeral(buffer[..n], value) && buffer[n] == '\0'
    ensures forall k :: n < k < buffer.Length ==> buffer[k] == old(buffer[k])
  {
    HexTextIsNumeral(value);
    if value == 0 {
      buffer[0], buffer[1] := '0', '\0';
      assert buffer[..1] == "0";
      return 1;
    }
    n := WriteDigits(buffer, 0, value, Hex);
    ReverseString(buffer, 0, LowFirst(value, Hex));
    assert buffer[0..n] == buffer[..n];
  }

  method DecimalToString(value: int, buffer: array<char>) returns (n: nat)
    requires LONG_MIN <= value <= LONG_MAX && |DecimalText(value)| < buffer.Length
    modifies buffer
    ensures n == |DecimalText(value)| && TextAt(buffer, 0, DecimalText(value))
    ensures n < buffer.Length && (DecimalNumeral(buffer[..n], value) <==> value != LONG_MIN) && buffer[n] == '\0'
    ensures forall k :: n < k < buffer.Length ==> buffer[k] == old(buffer[k])
  {
    DecimalTextIsNumeral(value);
    if value == 0 {
      buffer[0], buffer[1] := '0', '\0';
      assert buffer[..1] == "0";
      return 1;
    }
    var i, left := 0, value;
    if value < 0 {
      i := 1;
      buffer[0] := '-';
      left := ToLong(-value);
    }
    n := PrintDigits(buffer, i, if left > 0 then left else 0);
    SignInFront(buffer, value);
    assert buffer[0..n] == buffer[..n];
  }

  /** The digits of a number, behind its sign if there is one: written lowest first, then reversed. */
  method PrintDigits(buffer: array<char>, i: nat, digits: nat) returns (n: nat)
    requires i + |LowFirst(digits, Decimal)| < buffer.Length
    requires if i == 1 then buffer[0] == '-' else i == 0 && digits > 0
    modifies buffer
    ensures n == i + |LowFirst(digits, Decimal)| && TextAt(buffer, i, Reversed(LowFirst(digits, Decimal)))
    ensures forall k :: 0 <= k < i || n < k < buffer.Length ==> buffer[k] == old(buffer[k])
  {
    n := WriteDigits(buffer, i, digits, Decimal);
    LowFirstChars(digits, Decimal);
    Scanned(buffer, i, LowFirst(digits, Decimal), i);
    ReverseString(buffer, if buffer[0] == '-' then 1 else 0, LowFirst(digits, Decimal));
  }

  lemma SignInFront(buffer: array<char>, value: int)
    requires LONG_MIN <= value <= LONG_MAX && value != 0 && DecimalText(value) != "" && buffer.Length > 0
    requires value < 0 ==> DecimalText(value)[0] == '-' == buffer[0] && TextAt(buffer, 1, DecimalText(value)[1..])
    requires value > 0 ==> TextAt(buffer, 0, DecimalText(value))
    ensures TextAt(buffer, 0, DecimalText(value))
  {
    if value < 0 {
      var text := DecimalText(value);
      assert text == ['-'] + text[1..];
      assert buffer[0..0 + |text|] == [buffer[0]] + buffer[1..1 + |text[1..]|];
      forall k | 0 <= k < |text| ensures text[k] != '\0' {
        assert k > 0 ==> text[k] == text[1..][k - 1];
      }
    }
  }

  method HexStringToQword(buffer: array<char>, ghost text: string) returns (value: nat)
    requires TextAt(buffer, 0, text)
    ensures value == HexValue(text)
    ensures forall digits :: HexDigits(text, digits) ==> value == PlaceSum(digits, 16) % QWORD
  {
    value := 0;
    var i := 0;
    while buffer[i] != '\0'
      invariant 0 <= i <= |text| && value == HexValue(text[..i])
      decreases |text| - i
    {
      Scanned(buffer, 0, text, i);
      value := ToQword(value * 16 + HexDigit(buffer[i]));
      i := i + 1;
    }
    Scanned(buffer, 0, text, i);
    forall digits | HexDigits(text, digits) ensures value == PlaceSum(digits, 16) % QWORD {
      HexMeaning(text, digits);
    }
  }

  method DecimalStringToLong(buffer: array<char>, ghost text: string) returns (value: int)
    requires TextAt(buffer, 0, text)
    ensures value == DecimalValue(text)
    ensures forall digits :: DecimalDigits(text, digits) ==> value == ToLong(PlaceSum(digits, 10))
    ensures forall digits :: text != "" && text[0] == '-' && DecimalDigits(text[1..], digits) ==>
              value == ToLong(0 - PlaceSum(digits, 10))
  {
    var negative := buffer[0] == '-';
    SignSplit(buffer, text);
    var from := if negative then 1 else 0;
    ghost var digits := if negative then text[1..] else text;
    value := ReadDigits(buffer, from, digits);
    if negative {
      value := ToLong(-value);
    }
    forall digits {
      DecimalMeaning(text, digits);
    }
  }

  method ReadDigits(buffer: array<char>, from: nat, ghost text: string) returns (value: int)
    requires TextAt(buffer, from, text)
    ensures value == DigitsValue(text)
  {
    value := 0;
    var i := from;
    while buffer[i] != '\0'
      invariant from <= i <= from + |text| && value == DigitsValue(text[..i - from])
      decreases from + |text| - i
    {
      Scanned(buffer, from, text, i);
      value := ToLong(value * 10 + DecimalDigit(buffer[i]));
      i := i + 1;
    }
    Scanned(buffer, from, text, i);
  }

  lemma SignSplit(buffer: array<char>, text: string)
    requires TextAt(buffer, 0, text)
    ensures buffer[0] == '-' <==> text != "" && text[0] == '-'
    ensures text != "" && text[0] == '-' ==> TextAt(buffer, 1, text[1..])
  {
    Scanned(buffer, 0, text, 0);
  }
}
