/**
 What number texts mean: a digit counts its place in the alphabet times a power of the base. Printed texts are the one
 numeral without leading zeros, and parsed numbers are such sums, as far as 64 bits hold them.
 */
module PlaceValues {
  import opened Words
  import opened Numerals

  function Power(b: nat, n: nat): nat {
    if n == 0 then 1 else b * Power(b, n - 1)
  }

  /** The digits by their weights: the last one counts once, the one before it `b` times, and so on. */
  function PlaceSum(digits: seq<nat>, b: nat): nat {
    if digits == [] then 0 else digits[0] * Power(b, |digits| - 1) + PlaceSum(digits[1..], b)
  }

  /** The characters of `s` are those at `digits` in one of the alphabets. */
  ghost predicate Spells(s: string, digits: seq<nat>, lower: string, upper: string) {
    && |digits| == |s|
    && forall i :: 0 <= i < |s| ==>
         digits[i] < |lower| == |upper| && (s[i] == lower[digits[i]] || s[i] == upper[digits[i]])
  }

  ghost predicate DecimalDigits(s: string, digits: seq<nat>) {
    Spells(s, digits, "0123456789", "0123456789")
  }

  ghost predicate HexDigits(s: string, digits: seq<nat>) {
    Spells(s, digits, "0123456789abcdef", "0123456789ABCDEF")
  }

  /** These digits write `n` in base `b`: none in front that is zero, unless it is the only one. */
  ghost predicate Writes(n: nat, digits: seq<nat>, b: nat) {
    digits != [] && (|digits| > 1 ==> digits[0] != 0) && PlaceSum(digits, b) == n
  }

  /** `s` is the decimal numeral of `v`. */
  ghost predicate DecimalNumeral(s: string, v: int) {
    if v < 0 then s != "" && s[0] == '-' && exists digits :: DecimalDigits(s[1..], digits) && Writes(-v, digits, 10)
    else exists digits :: DecimalDigits(s, digits) && Writes(v, digits, 10)
  }

  /** `s` is the hexadecimal numeral of `v`, in small letters. */
  ghost predicate HexNumeral(s: string, v: nat) {
    exists digits :: Spells(s, digits, "0123456789abcdef", "0123456789abcdef") && Writes(v, digits, 16)
  }

  // ----- sums

  lemma {:induction false} PlaceSumAppend(digits: seq<nat>, d: nat, b: nat)
    ensures PlaceSum(digits + [d], b) == b * PlaceSum(digits, b) + d
  {
    if digits == [] {
      assert [d][1..] == [];
    } else {
      var all := digits + [d];
      assert all[1..] == digits[1..] + [d];
      PlaceSumAppend(digits[1..], d, b);
      Regrouped(digits[0], Power(b, |digits| - 1), b, PlaceSum(digits[1..], b), d);
    }
  }

  lemma Regrouped(first: nat, p: nat, b: nat, rest: nat, d: nat)
    ensures first * (b * p) + (b * rest + d) == b * (first * p + rest) + d
  {
    assert first * (b * p) == b * (first * p);
  }

  lemma LastDigit(digits: seq<nat>, b: nat)
    requires digits != []
    ensures PlaceSum(digits, b) == b * PlaceSum(digits[..|digits| - 1], b) + digits[|digits| - 1]
  {
    assert digits == digits[..|digits| - 1] + [digits[|digits| - 1]];
    PlaceSumAppend(digits[..|digits| - 1], digits[|digits| - 1], b);
  }

  // ----- parsing

  lemma {:induction false} DigitsRead(s: string, digits: seq<nat>)
    requires DecimalDigits(s, digits)
    ensures DigitsValue(s) == ToLong(PlaceSum(digits, 10))
  {
    if s != "" {
      var n := |s| - 1;
      DigitsRead(s[..n], digits[..n]);
      LastDigit(digits, 10);
      DecimalCharacter(s[n], digits[n]);
      LongStep(PlaceSum(digits[..n], 10), digits[n]);
    }
  }

  lemma DecimalCharacter(c: char, d: nat)
    requires d < 10 && c == "0123456789"[d]
    ensures DecimalDigit(c) == d
  {
  }

  lemma LongStep(a: int, d: int)
    ensures ToLong(ToLong(a) * 10 + d) == ToLong(a * 10 + d)
  {
    var q := (a - LONG_MIN) / QWORD;
    assert ToLong(a) == a - q * QWORD;
    Wraps(a * 10 + d - LONG_MIN, 10 * q);
  }

  lemma Wraps(x: int, q: int)
    ensures (x - q * QWORD) % QWORD == x % QWORD
  {
  }

  /** The number read from any decimal text is the sum of its digits by their places, wrapped to 64 bits. */
  lemma DecimalMeaning(s: string, digits: seq<nat>)
    ensures DecimalDigits(s, digits) ==> DecimalValue(s) == ToLong(PlaceSum(digits, 10))
    ensures s != "" && s[0] == '-' && DecimalDigits(s[1..], digits) ==>
              DecimalValue(s) == ToLong(0 - PlaceSum(digits, 10))
  {
    if DecimalDigits(s, digits) {
      DigitsRead(s, digits);
    }
    if s != "" && s[0] == '-' && DecimalDigits(s[1..], digits) {
      DigitsRead(s[1..], digits);
      var a := PlaceSum(digits, 10);
      var q := (a - LONG_MIN) / QWORD;
      assert ToLong(a) == a - q * QWORD;
      Wraps(-a - LONG_MIN, -q);
    }
  }

  lemma HexCharacter(c: char, d: nat)
    requires d < 16 && (c == "0123456789abcdef"[d] || c == "0123456789ABCDEF"[d])
    ensures HexDigit(c) == d
  {
  }

  lemma QwordStep(a: nat, d: nat, v: nat)
    requires v == a % QWORD
    ensures ToQword(v * 16 + d) == (16 * a + d) % QWORD
  {
    var q := a / QWORD;
    Wraps(16 * a + d, 16 * q);
  }

  lemma HexStep(s: string, digits: seq<nat>)
    requires |s| == |digits| > 0 && HexValue(s[..|s| - 1]) == PlaceSum(digits[..|s| - 1], 16) % QWORD
    requires HexDigit(s[|s| - 1]) == digits[|s| - 1]
    ensures HexValue(s) == (16 * PlaceSum(digits[..|s| - 1], 16) + digits[|s| - 1]) % QWORD
  {
    QwordStep(PlaceSum(digits[..|s| - 1], 16), digits[|s| - 1], HexValue(s[..|s| - 1]));
  }

  lemma HexFront(s: string, digits: seq<nat>)
    requires HexDigits(s, digits) && s != ""
    ensures |s| == |digits| && HexDigits(s[..|s| - 1], digits[..|s| - 1]) && HexDigit(s[|s| - 1]) == digits[|s| - 1]
    ensures PlaceSum(digits, 16) == 16 * PlaceSum(digits[..|s| - 1], 16) + digits[|s| - 1]
  {
    LastDigit(digits, 16);
    HexCharacter(s[|s| - 1], digits[|s| - 1]);
  }

  /** The number read from a hexadecimal text, in letters of either case, is the sum of its digits by their places. */
  lemma {:induction false} HexMeaning(s: string, digits: seq<nat>)
    requires HexDigits(s, digits)
    ensures HexValue(s) == PlaceSum(digits, 16) % QWORD
  {
    if s != "" {
      HexFront(s, digits);
      HexMeaning(s[..|s| - 1], digits[..|s| - 1]);
      HexStep(s, digits);
    }
  }

  /** The same letters, each in either case. */
  ghost predicate SameLetters(s: string, t: string) {
    && |s| == |t|
    && forall i :: 0 <= i < |s| ==>
         || t[i] == s[i]
         || ('a' <= s[i] <= 'z' && t[i] == 'A' + (s[i] - 'a'))
         || ('A' <= s[i] <= 'Z' && t[i] == 'a' + (s[i] - 'A'))
  }

  /** Letters of either case are read alike. */
  lemma {:induction false} CaseDoesNotMatter(s: string, t: string)
    requires SameLetters(s, t)
    ensures HexValue(t) == HexValue(s)
  {
    if s != "" {
      var n := |s| - 1;
      CaseDoesNotMatter(s[..n], t[..n]);
    }
  }

  /** Letters count on from one to the next, behind 'f' as well. */
  lemma LettersCountOn(c: char)
    requires 'a' <= c < 'z' || 'A' <= c < 'Z'
    ensures HexDigit(c + 1 as char) == HexDigit(c) + 1
  {
  }

  // ----- printing

  lemma {:induction false} DecimalDigitsPrinted(v: nat) returns (digits: seq<nat>)
    ensures DecimalDigits(Reversed(LowFirst(v, Decimal)), digits) && PlaceSum(digits, 10) == v
    ensures v > 0 ==> digits != [] && digits[0] != 0
  {
    if v == 0 {
      return [];
    }
    var front := DecimalDigitsPrinted(v / 10);
    digits := front + [v % 10];
    SplitDigit(v, Decimal);
    PlaceSumAppend(front, v % 10, 10);
  }

  lemma {:induction false} HexDigitsPrinted(v: nat) returns (digits: seq<nat>)
    ensures Spells(Reversed(LowFirst(v, Hex)), digits, "0123456789abcdef", "0123456789abcdef")
    ensures PlaceSum(digits, 16) == v && (v > 0 ==> digits != [] && digits[0] != 0)
  {
    if v == 0 {
      return [];
    }
    var front := HexDigitsPrinted(v / 16);
    digits := front + [v % 16];
    SplitDigit(v, Hex);
    PlaceSumAppend(front, v % 16, 16);
  }

  /** The decimal text of a number is its numeral, exactly if it is not the least number. */
  lemma DecimalTextIsNumeral(v: int)
    requires LONG_MIN <= v <= LONG_MAX
    ensures DecimalNumeral(DecimalText(v), v) <==> v != LONG_MIN
  {
    if v == 0 {
      var digits: seq<nat> := [0];
      assert DecimalDigits("0", digits) && digits[1..] == [] && Writes(0, digits, 10);
    } else if v != LONG_MIN {
      var digits := DecimalDigitsPrinted(if v < 0 then -v else v);
      assert v < 0 ==> DecimalText(v)[1..] == Reversed(LowFirst(-v, Decimal));
      assert Writes(if v < 0 then -v else v, digits, 10);
    }
  }

  lemma HexTextIsNumeral(v: nat)
    ensures HexNumeral(HexText(v), v)
  {
    if v == 0 {
      var digits: seq<nat> := [0];
      assert Spells("0", digits, "0123456789abcdef", "0123456789abcdef") && digits[1..] == [] && Writes(0, digits, 16);
    } else {
      var digits := HexDigitsPrinted(v);
      assert Writes(v, digits, 16);
    }
  }

  // ----- numerals are unique

  lemma {:induction false} DigitsOnce(a: seq<nat>, c: seq<nat>, b: nat)
    requires b > 1 && (forall i :: 0 <= i < |a| ==> a[i] < b) && (forall i :: 0 <= i < |c| ==> c[i] < b)
    requires PlaceSum(a, b) == PlaceSum(c, b)
    requires (a != [] ==> a[0] != 0) && (c != [] ==> c[0] != 0)
    ensures a == c
    decreases |a|
  {
    if a == [] || c == [] {
      Positive(a, b);
      Positive(c, b);
    } else {
      var m, n := |a| - 1, |c| - 1;
      LastDigit(a, b);
      LastDigit(c, b);
      Quotient(PlaceSum(a[..m], b), a[m], PlaceSum(c[..n], b), c[n], b);
      DigitsOnce(a[..m], c[..n], b);
      assert a == a[..m] + [a[m]] && c == c[..n] + [c[n]];
    }
  }

  lemma {:induction false} Positive(a: seq<nat>, b: nat)
    requires b > 1
    ensures a != [] && a[0] != 0 ==> PlaceSum(a, b) > 0
    decreases |a|
  {
    if a != [] {
      PowerPositive(b, |a| - 1);
      assert a[0] != 0 ==> a[0] * Power(b, |a| - 1) > 0;
    }
  }

  lemma {:induction false} PowerPositive(b: nat, n: nat)
    requires b > 0
    ensures Power(b, n) > 0
  {
    if n > 0 {
      PowerPositive(b, n - 1);
    }
  }

  lemma Quotient(p: nat, d: nat, q: nat, e: nat, b: nat)
    requires d < b && e < b && b * p + d == b * q + e
    ensures p == q && d == e
  {
    if p < q {
      Times(p, q, b);
    } else if q < p {
      Times(q, p, b);
    }
  }

  lemma Times(p: nat, q: nat, b: nat)
    ensures p < q ==> b * q >= b * p + b
  {
    if p < q {
      var k: nat := q - p - 1;
      assert b * (p + 1 + k) == b * p + b + b * k;
    }
  }

  lemma WritesOnce(n: nat, a: seq<nat>, c: seq<nat>, b: nat)
    requires b > 1 && Writes(n, a, b) && Writes(n, c, b)
    requires (forall i :: 0 <= i < |a| ==> a[i] < b) && (forall i :: 0 <= i < |c| ==> c[i] < b)
    ensures a == c
  {
    Positive(a, b);
    Positive(c, b);
    if n > 0 {
      LastDigit([a[0]], b);
      LastDigit([c[0]], b);
      DigitsOnce(a, c, b);
    }
  }

  /** A number has one decimal numeral, and one hexadecimal one in small letters. */
  lemma NumeralOnce(s: string, t: string, v: int)
    ensures DecimalNumeral(s, v) && DecimalNumeral(t, v) ==> s == t
    ensures v >= 0 && HexNumeral(s, v) && HexNumeral(t, v) ==> s == t
  {
    if DecimalNumeral(s, v) && DecimalNumeral(t, v) {
      var n, s', t' := if v < 0 then -v else v, if v < 0 then s[1..] else s, if v < 0 then t[1..] else t;
      var a :| DecimalDigits(s', a) && Writes(n, a, 10);
      var c :| DecimalDigits(t', c) && Writes(n, c, 10);
      WritesOnce(n, a, c, 10);
      assert s' == t';
      assert v < 0 ==> s == ['-'] + s' && t == ['-'] + t';
    }
    if v >= 0 && HexNumeral(s, v) && HexNumeral(t, v) {
      var a :| Spells(s, a, "0123456789abcdef", "0123456789abcdef") && Writes(v, a, 16);
      var c :| Spells(t, c, "0123456789abcdef", "0123456789abcdef") && Writes(v, c, 16);
      WritesOnce(v, a, c, 16);
    }
  }
}
