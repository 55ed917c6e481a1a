/** Numbers as text: what printing writes, what parsing reads, and that parsing undoes printing. */
module Numerals {
  import opened Words

  const LONG_MIN: int := -0x8000_0000_0000_0000
  const LONG_MAX: int := 0x7fff_ffff_ffff_ffff

  /** The 64-bit signed number that a result wraps around to. */
  function ToLong(x: int): (r: int)
    ensures LONG_MIN <= r <= LONG_MAX
    ensures LONG_MIN <= x <= LONG_MAX ==> r == x
    ensures (x - r) % QWORD == 0
  {
    (x - LONG_MIN) % QWORD + LONG_MIN
  }

  /** The 64-bit unsigned number that a result wraps around to. */
  function ToQword(x: int): (r: nat)
    ensures r < QWORD
    ensures 0 <= x < QWORD ==> r == x
    ensures (x - r) % QWORD == 0
  {
    x % QWORD
  }

  function DigitChar(d: nat): char
    requires d < 16
  {
    if d >= 10 then 'a' + (d - 10) as char else '0' + d as char
  }

  /** What a character adds to a hexadecimal number: any letter counts on from ten. */
  function HexDigit(c: char): int {
    if 'A' <= c <= 'Z' then c as int - 'A' as int + 10
    else if 'a' <= c <= 'z' then c as int - 'a' as int + 10
    else c as int - '0' as int
  }

  function DecimalDigit(c: char): int {
    c as int - '0' as int
  }

  lemma DigitRead(d: nat)
    requires d < 16
    ensures HexDigit(DigitChar(d)) == d && DigitChar(d) != '\0' && DigitChar(d) != '-'
    ensures d < 10 ==> DecimalDigit(DigitChar(d)) == d
  {
  }

  // ----- printing

  datatype Base = Decimal | Hex

  function LowDigit(v: nat, base: Base): (d: nat)
    ensures d < 16 && (base.Decimal? ==> d < 10)
  {
    match base
    case Decimal => v % 10
    case Hex => v % 16
  }

  function OtherDigits(v: nat, base: Base): (w: nat)
    ensures v > 0 ==> w < v
  {
    match base
    case Decimal => v / 10
    case Hex => v / 16
  }

  /** The digits of `v`, lowest first, none for 0: what the digit loop writes. */
  function LowFirst(v: nat, base: Base): string {
    if v == 0 then "" else [DigitChar(LowDigit(v, base))] + LowFirst(OtherDigits(v, base), base)
  }

  function Reversed(s: string): (r: string)
    ensures |r| == |s|
  {
    if s == "" then "" else Reversed(s[1..]) + [s[0]]
  }

  lemma {:induction false} ReversedAt(s: string, k: nat)
    requires k < |s|
    ensures Reversed(s)[k] == s[|s| - 1 - k]
  {
    if |s| > 1 {
      ReversedAt(s[1..], if k < |s| - 1 then k else 0);
    }
  }

  function HexText(v: nat): string {
    if v == 0 then "0" else Reversed(LowFirst(v, Hex))
  }

  /** The least number has no negation: its sign is all that is printed of it. */
  function DecimalText(v: int): string
    requires LONG_MIN <= v <= LONG_MAX
  {
    if v == 0 then "0"
    else if v == LONG_MIN then "-"
    else if v < 0 then "-" + Reversed(LowFirst(-v, Decimal))
    else Reversed(LowFirst(v, Decimal))
  }

  // ----- parsing

  function HexValue(s: string): (v: nat)
    ensures v < QWORD
  {
    if s == "" then 0 else ToQword(HexValue(s[..|s| - 1]) * 16 + HexDigit(s[|s| - 1]))
  }

  function DigitsValue(s: string): (v: int)
    ensures LONG_MIN <= v <= LONG_MAX
  {
    if s == "" then 0 else ToLong(DigitsValue(s[..|s| - 1]) * 10 + DecimalDigit(s[|s| - 1]))
  }

  function DecimalValue(s: string): int {
    if s != "" && s[0] == '-' then ToLong(-DigitsValue(s[1..])) else DigitsValue(s)
  }

  // ----- round trips

  lemma SplitDigit(v: nat, base: Base)
    requires v > 0
    ensures var s := Reversed(LowFirst(v, base));
            && s != "" && s[..|s| - 1] == Reversed(LowFirst(OtherDigits(v, base), base))
            && s[|s| - 1] == DigitChar(LowDigit(v, base))
  {
    var low := LowFirst(v, base);
    assert low[1..] == LowFirst(OtherDigits(v, base), base);
  }

  lemma {:induction false} HexRead(v: nat)
    requires v < QWORD
    ensures HexValue(Reversed(LowFirst(v, Hex))) == v
  {
    if v > 0 {
      SplitDigit(v, Hex);
      HexRead(OtherDigits(v, Hex));
      DigitRead(LowDigit(v, Hex));
    }
  }

  lemma {:induction false} DecimalRead(v: nat)
    requires v <= LONG_MAX
    ensures DigitsValue(Reversed(LowFirst(v, Decimal))) == v
  {
    if v > 0 {
      SplitDigit(v, Decimal);
      DecimalRead(OtherDigits(v, Decimal));
      DigitRead(LowDigit(v, Decimal));
    }
  }

  lemma {:induction false} LowFirstChars(v: nat, base: Base)
    ensures forall k :: 0 <= k < |LowFirst(v, base)| ==> LowFirst(v, base)[k] != '\0' && LowFirst(v, base)[k] != '-'
    ensures v > 0 ==> LowFirst(v, base) != ""
  {
    if v > 0 {
      DigitRead(LowDigit(v, base));
      LowFirstChars(OtherDigits(v, base), base);
    }
  }

  /** Parsing what was printed gives the number back, for every 64-bit number. */
  lemma HexRoundTrip(v: nat)
    requires v < QWORD
    ensures HexValue(HexText(v)) == v
  {
    if v == 0 {
      assert HexValue("0") == 0 by {
        assert "0"[..0] == "";
      }
    } else {
      HexRead(v);
    }
  }

  lemma FirstDigit(v: nat)
    requires v > 0
    ensures var s := Reversed(LowFirst(v, Decimal)); s != "" && s[0] != '-'
  {
    LowFirstChars(v, Decimal);
    ReversedAt(LowFirst(v, Decimal), 0);
  }

  lemma SignRead(v: nat)
    requires v <= LONG_MAX
    ensures DecimalValue("-" + Reversed(LowFirst(v, Decimal))) == 0 - v
  {
    DecimalRead(v);
    var s := Reversed(LowFirst(v, Decimal));
    assert ("-" + s)[1..] == s;
  }

  /** The same holds of a signed number exactly if it is not the least one. */
  lemma DecimalRoundTrip(v: int)
    requires LONG_MIN <= v <= LONG_MAX
    ensures DecimalValue(DecimalText(v)) == v <==> v != LONG_MIN
  {
    if v == 0 {
      assert "0"[..0] == "";
    } else if v == LONG_MIN {
      SignRead(0);
      assert "-" + Reversed(LowFirst(0, Decimal)) == "-";
    } else if v < 0 {
      SignRead(-v);
    } else {
      DecimalRead(v);
      FirstDigit(v);
    }
  }

  /** No two numbers share a text. */
  lemma TextsDiffer(v: int, w: int)
    requires LONG_MIN <= v <= LONG_MAX && LONG_MIN <= w <= LONG_MAX
    ensures DecimalText(v) == DecimalText(w) <==> v == w
  {
    DecimalRoundTrip(v);
    DecimalRoundTrip(w);
    DecimalNotSign(v);
    DecimalNotSign(w);
  }

  lemma DecimalNotSign(v: int)
    requires LONG_MIN <= v <= LONG_MAX
    ensures DecimalText(v) == "-" <==> v == LONG_MIN
  {
    if LONG_MIN < v < 0 {
      LowFirstChars(-v, Decimal);
    } else if v > 0 {
      FirstDigit(v);
    }
  }
}
