/**
 Filling, copying and comparing memory eight bytes at a time, with the last bytes one by one. The plain
 byte-by-byte meaning is the specification.
 */
module Memory {
  import opened Words
  import opened Bytes

  function Pow256(n: nat): (p: nat)
    ensures p >= 1
  {
    if n == 0 then 1 else 256 * Pow256(n - 1)
  }

  lemma PowEight()
    ensures Pow256(8) == QWORD
  {
    assert Pow256(4) == DWORD;
    assert Pow256(6) == 0x1_0000_0000_0000;
  }

  // ----- words and their bytes

  /** The `n` lowest bytes of a word, lowest first: what storing it writes. */
  function Unword(w: nat, n: nat): (s: seq<octet>)
    ensures |s| == n
  {
    if n == 0 then [] else [w % 256] + Unword(w / 256, n - 1)
  }

  lemma {:induction false} WordBound(s: seq<octet>)
    ensures Word(s) < Pow256(|s|)
  {
    if s != [] {
      WordBound(s[1..]);
    }
  }

  /** Storing a word that was loaded copies the bytes. */
  lemma {:induction false} StoreLoaded(s: seq<octet>)
    ensures Unword(Word(s), |s|) == s
  {
    if s != [] {
      StoreLoaded(s[1..]);
    }
  }

  function Repeated(b: octet, n: nat): (s: seq<octet>)
    ensures |s| == n && forall k :: 0 <= k < n ==> s[k] == b
  {
    if n == 0 then [] else [b] + Repeated(b, n - 1)
  }

  /** Shifting a byte in at the low end of a word of equal bytes makes it one byte longer. */
  lemma {:induction false} ShiftIn(b: octet, n: nat)
    ensures Word(Repeated(b, n)) * 256 + b == Word(Repeated(b, n + 1))
  {
    assert Repeated(b, n + 1)[1..] == Repeated(b, n);
  }

  // ----- differences of words

  /** The difference of two loaded words, wrapped around. */
  function Difference(a: seq<octet>, b: seq<octet>): nat
    requires |a| == |b|
  {
    (Word(a) - Word(b)) % Pow256(|a|)
  }

  /** `(w >> (8 * k)) & 0xff` */
  function ByteOf(w: nat, k: nat): nat {
    if k == 0 then w % 256 else ByteOf(w / 256, k - 1)
  }

  function ByteDifference(a: octet, b: octet): nat {
    (a - b) % 256
  }

  lemma DifferByte(a: octet, b: octet)
    ensures ByteDifference(a, b) == 0 <==> a == b
  {
  }

  lemma Multiple(d: int, p: nat)
    ensures d >= 1 ==> d * p >= p
    ensures d <= -1 ==> d * p + p <= 0
  {
    if d >= 1 {
      assert (d - 1) * p >= 0;
    }
    if d <= -1 {
      assert (-1 - d) * p >= 0;
    }
  }

  lemma Remainder(x: int, q: int, p: nat, r: nat)
    requires x == q * p + r && r < p
    ensures x % p == r
  {
    assert x == (x / p) * p + x % p;
    assert (x / p - q) * p == r - x % p;
    Multiple(x / p - q, p);
  }

  lemma ScaledRemainder(x: int, p: nat)
    requires p > 0
    ensures (256 * x) % (256 * p) == 256 * (x % p)
  {
    var q := x / p;
    assert x == q * p + x % p;
    assert 256 * x == q * (256 * p) + 256 * (x % p);
    Remainder(256 * x, q, 256 * p, 256 * (x % p));
  }

  lemma LowRemainder(x: int, p: nat)
    requires p > 0
    ensures (x % (256 * p)) % 256 == x % 256
  {
    var m := 256 * p;
    var q := x / m;
    assert x == q * m + x % m;
    assert x % m == 256 * (-q * p) + x;
  }

  ghost predicate DifferAt(a: seq<octet>, b: seq<octet>, k: nat) {
    k < |a| && k < |b| && a[k] != b[k] && forall i :: 0 <= i < k ==> a[i] == b[i]
  }

  lemma DropMultiple(x: int, d: int)
    ensures (256 * x + d) % 256 == d % 256
  {
  }

  lemma LowestDifference(a: seq<octet>, b: seq<octet>)
    requires |a| == |b| > 0
    ensures Difference(a, b) % 256 == ByteDifference(a[0], b[0])
  {
    var x, first: int := Word(a[1..]) - Word(b[1..]), a[0];
    var d := first - b[0];
    DropMultiple(x, d);
    LowRemainder(256 * x + d, Pow256(|a| - 1));
  }

  lemma UpperDifference(a: seq<octet>, b: seq<octet>)
    requires |a| == |b| > 0 && a[0] == b[0]
    ensures Difference(a, b) == 256 * Difference(a[1..], b[1..])
    ensures Difference(a, b) % 256 == 0 && Difference(a, b) / 256 == Difference(a[1..], b[1..])
  {
    var x := Word(a[1..]) - Word(b[1..]);
    assert Word(a) - Word(b) == 256 * x;
    ScaledRemainder(x, Pow256(|a| - 1));
  }

  /** The lowest byte in which the difference is not zero is that of the first bytes that differ. */
  lemma {:induction false} LowestByte(a: seq<octet>, b: seq<octet>, k: nat)
    requires |a| == |b| && DifferAt(a, b, k)
    ensures forall i :: 0 <= i < k ==> ByteOf(Difference(a, b), i) == 0
    ensures ByteOf(Difference(a, b), k) == ByteDifference(a[k], b[k])
  {
    LowestDifference(a, b);
    if k > 0 {
      UpperDifference(a, b);
      LowestByte(a[1..], b[1..], k - 1);
      forall i | 0 <= i < k ensures ByteOf(Difference(a, b), i) == 0 {
        if i > 0 {
          assert ByteOf(Difference(a, b), i) == ByteOf(Difference(a[1..], b[1..]), i - 1);
        }
      }
    }
  }

  lemma {:induction false} FirstDifference(a: seq<octet>, b: seq<octet>) returns (k: nat)
    requires |a| == |b| && a != b
    ensures DifferAt(a, b, k)
  {
    if a[0] != b[0] {
      return 0;
    }
    assert a == [a[0]] + a[1..] && b == [b[0]] + b[1..];
    k := FirstDifference(a[1..], b[1..]);
    k := k + 1;
    assert a[k] == a[1..][k - 1] && b[k] == b[1..][k - 1];
    forall i | 0 <= i < k ensures a[i] == b[i] {
      assert i > 0 ==> a[i] == a[1..][i - 1] && b[i] == b[1..][i - 1];
    }
  }

  lemma {:induction false} ZeroBytes(k: nat)
    ensures ByteOf(0, k) == 0
  {
    if k > 0 {
      ZeroBytes(k - 1);
    }
  }

  /** Two words are equal exactly if all their bytes are. */
  lemma DifferenceZero(a: seq<octet>, b: seq<octet>)
    requires |a| == |b|
    ensures Difference(a, b) == 0 <==> a == b
  {
    if a == b {
      Remainder(0, 0, Pow256(|a|), 0);
    } else {
      var k := FirstDifference(a, b);
      LowestByte(a, b, k);
      DifferByte(a[k], b[k]);
      ZeroBytes(k);
    }
  }

  // ----- the routines

  /** Stores an eight-byte word. */
  method StoreWord(buffer: array<octet>, at: nat, w: nat)
    requires at + 8 <= buffer.Length
    modifies buffer
    ensures buffer[at..at + 8] == Unword(w, 8)
    ensures forall k :: 0 <= k < at || at + 8 <= k < buffer.Length ==> buffer[k] == old(buffer[k])
  {
    var s := Unword(w, 8);
    forall k | at <= k < at + 8 {
      buffer[k] := s[k - at];
    }
  }

  method MemSet(buffer: array<octet>, b: octet, size: nat)
    requires size <= buffer.Length
    modifies buffer
    ensures forall k :: 0 <= k < size ==> buffer[k] == b
    ensures forall k :: size <= k < buffer.Length ==> buffer[k] == old(buffer[k])
  {
    var word := 0;
    for i := 0 to 8
      invariant word == Word(Repeated(b, i)) && buffer[..] == old(buffer[..])
    {
      ShiftIn(b, i);
      word := word * 256 + b;
    }
    StoreLoaded(Repeated(b, 8));
    var i := 0;
    while i < size / 8
      invariant i <= size / 8
      invariant forall k :: 0 <= k < 8 * i ==> buffer[k] == b
      invariant forall k :: 8 * i <= k < buffer.Length ==> buffer[k] == old(buffer[k])
    {
      StoreWord(buffer, 8 * i, word);
      assert forall k :: 8 * i <= k < 8 * i + 8 ==> buffer[k] == buffer[8 * i..8 * i + 8][k - 8 * i];
      i := i + 1;
    }
    for k := 8 * i to size
      invariant forall j :: 0 <= j < k ==> buffer[j] == b
      invariant forall j :: k <= j < buffer.Length ==> buffer[j] == old(buffer[j])
    {
      buffer[k] := b;
    }
  }

  method MemCpy(destination: array<octet>, source: array<octet>, size: nat)
    requires size <= destination.Length && size <= source.Length
    modifies destination
    ensures destination[..size] == old(source[..size])
    ensures forall k :: size <= k < destination.Length ==> destination[k] == old(destination[k])
  {
    var i := 0;
    while i < size / 8
      invariant i <= size / 8
      invariant forall k :: 0 <= k < 8 * i ==> destination[k] == old(source[k])
      invariant forall k :: 8 * i <= k < destination.Length ==> destination[k] == old(destination[k])
      invariant forall k :: 8 * i <= k < source.Length ==> source[k] == old(source[k])
    {
      ghost var bytes := source[8 * i..8 * i + 8];
      StoreLoaded(bytes);
      StoreWord(destination, 8 * i, Word(source[8 * i..8 * i + 8]));
      assert forall k :: 8 * i <= k < 8 * i + 8 ==> destination[k] == destination[8 * i..8 * i + 8][k - 8 * i];
      i := i + 1;
    }
    for k := 8 * i to size
      invariant forall j :: 0 <= j < k ==> destination[j] == old(source[j])
      invariant forall j :: k <= j < destination.Length ==> destination[j] == old(destination[j])
      invariant forall j :: k <= j < source.Length ==> source[j] == old(source[j])
    {
      destination[k] := source[k];
    }
  }

  /** A byte difference as the signed character that the last bytes are compared as. */
  function Signed(d: nat): int
    requires d < 256
  {
    if d < 128 then d else d - 256
  }

  /** What a comparison reports whose first difference is at `k`: unsigned in whole words, signed behind. */
  function Verdict(x: octet, y: octet, size: nat, k: nat): int {
    if k < size / 8 * 8 then ByteDifference(x, y) else Signed(ByteDifference(x, y))
  }

  /** The lowest byte of the difference of two unequal words that is not zero. */
  method FirstByte(value: nat, ghost a: seq<octet>, ghost b: seq<octet>) returns (r: nat, ghost k: nat)
    requires |a| == |b| && a != b && value == Difference(a, b)
    ensures DifferAt(a, b, k) && r == ByteDifference(a[k], b[k]) > 0
  {
    k := FirstDifference(a, b);
    LowestByte(a, b, k);
    DifferByte(a[k], b[k]);
    var i := 0;
    while ByteOf(value, i) == 0
      invariant i <= k
      decreases k - i
    {
      i := i + 1;
    }
    r := ByteOf(value, i);
  }

  /** Compares the words at `at`; when they differ, the first bytes to do so are those at `k`. */
  method CompareWords(a: array<octet>, b: array<octet>, at: nat) returns (r: nat, ghost k: nat)
    requires at + 8 <= a.Length && at + 8 <= b.Length
    ensures r == 0 ==> forall j :: at <= j < at + 8 ==> a[j] == b[j]
    ensures r > 0 ==> at <= k < at + 8 && (forall j :: at <= j < k ==> a[j] == b[j])
                      && a[k] != b[k] && r == ByteDifference(a[k], b[k])
  {
    ghost var x, y := a[at..at + 8], b[at..at + 8];
    PowEight();
    var value := (Word(a[at..at + 8]) - Word(b[at..at + 8])) % QWORD;
    DifferenceZero(x, y);
    r, k := 0, 0;
    if value != 0 {
      r, k := FirstByte(value, x, y);
      k := at + k;
    }
    assert forall j :: at <= j < at + 8 ==> a[j] == x[j - at] && b[j] == y[j - at];
  }

  /** Bytes before `k` agree, and those at `k` do not. */
  ghost predicate FirstAt(a: array<octet>, b: array<octet>, size: nat, k: nat)
    requires size <= a.Length && size <= b.Length
    reads a, b
  {
    k < size && a[k] != b[k] && a[..k] == b[..k]
  }

  /** Zero exactly on equal bytes, and otherwise the difference of the first two that differ, modulo 256. */
  method MemCmp(a: array<octet>, b: array<octet>, size: nat) returns (r: int)
    requires size <= a.Length && size <= b.Length
    ensures r == 0 <==> a[..size] == b[..size]
    ensures r != 0 ==> exists k: nat :: FirstAt(a, b, size, k) && r == Verdict(a[k], b[k], size, k)
  {
    var i := 0;
    while i < size / 8
      invariant i <= size / 8
      invariant forall j :: 0 <= j < 8 * i ==> a[j] == b[j]
    {
      ghost var k;
      r, k := CompareWords(a, b, 8 * i);
      if r != 0 {
        Reported(a, b, size, k, r);
        return;
      }
      i := i + 1;
    }
    for k := 8 * i to size
      invariant forall j :: 0 <= j < k ==> a[j] == b[j]
    {
      DifferByte(a[k], b[k]);
      r := Signed(ByteDifference(a[k], b[k]));
      if r != 0 {
        Reported(a, b, size, k, r);
        return;
      }
    }
    return 0;
  }

  lemma Reported(a: array<octet>, b: array<octet>, size: nat, k: nat, r: int)
    requires k < size <= a.Length && size <= b.Length && a[k] != b[k] && r == Verdict(a[k], b[k], size, k)
    requires forall j :: 0 <= j < k ==> a[j] == b[j]
    ensures FirstAt(a, b, size, k) && a[..size] != b[..size]
  {
    assert a[..size][k] != b[..size][k];
  }

  /** Either way it is reported, the difference is the one modulo 256: unsigned in whole words, signed behind them. */
  lemma VerdictCongruent(x: octet, y: octet, size: nat, k: nat)
    ensures Verdict(x, y, size, k) % 256 == (x - y + 256) % 256
    ensures Verdict(x, y, size, k) == 0 <==> x == y
    ensures if k < size - size % 8 then 0 <= Verdict(x, y, size, k) < 256 else -128 <= Verdict(x, y, size, k) < 128
  {
    DifferByte(x, y);
  }
}
