/** Bytes as bit vectors: testing, setting and clearing a bit, and eight bytes read as one word. */
module Bytes {

  type byte = bv8

  /** `0x01 << k` */
  function Mask(k: nat): byte
    requires k < 8
  {
    if k == 0 then 1 else if k == 1 then 2 else if k == 2 then 4 else if k == 3 then 8
    else if k == 4 then 16 else if k == 5 then 32 else if k == 6 then 64 else 128
  }

  lemma MaskIsShift(k: nat)
    requires k < 8
    ensures Mask(k) == (1 as byte) << k
  {
  }

  predicate Bit(b: byte, k: nat)
    requires k < 8
  {
    b & Mask(k) != 0
  }

  lemma SetBit(b: byte, k: nat, j: nat)
    requires k < 8 && j < 8
    ensures Bit(b | Mask(k), j) <==> j == k || Bit(b, j)
  {
  }

  lemma ClearBit(b: byte, k: nat, j: nat)
    requires k < 8 && j < 8
    ensures Bit(b & !Mask(k), j) <==> j != k && Bit(b, j)
  {
  }

  /** A byte is its eight bits. */
  lemma SameBits(a: byte, b: byte)
    requires forall k :: 0 <= k < 8 ==> (Bit(a, k) <==> Bit(b, k))
    ensures a == b
  {
    assert Bit(a, 0) <==> Bit(b, 0);
    assert Bit(a, 1) <==> Bit(b, 1);
    assert Bit(a, 2) <==> Bit(b, 2);
    assert Bit(a, 3) <==> Bit(b, 3);
    assert Bit(a, 4) <==> Bit(b, 4);
    assert Bit(a, 5) <==> Bit(b, 5);
    assert Bit(a, 6) <==> Bit(b, 6);
    assert Bit(a, 7) <==> Bit(b, 7);
  }

  /** A byte as the number it stands for. */
  type octet = b: int | 0 <= b < 256

  /** The byte that stands for a number, bit by bit. */
  function ToByte(b: nat): byte {
    if b == 0 then 0 else ToByte(b / 2) + ToByte(b / 2) + if b % 2 == 1 then 1 else 0
  }

  lemma {:induction false} ByteRead(b: nat)
    requires b < 256
    ensures ToByte(b) as int == b
  {
    if b > 0 {
      ByteRead(b / 2);
    }
  }

  function Values(s: seq<byte>): seq<octet> {
    seq(|s|, i requires 0 <= i < |s| => s[i] as int)
  }

  /** The little-endian number that bytes spell: a load of a word when there are eight. */
  function Word(s: seq<octet>): nat {
    if s == [] then 0 else s[0] + 256 * Word(s[1..])
  }

  lemma {:induction false} WordZero(s: seq<octet>)
    ensures Word(s) == 0 <==> forall i :: 0 <= i < |s| ==> s[i] == 0
  {
    if s != [] {
      WordZero(s[1..]);
      assert forall i :: 1 <= i < |s| ==> s[i] == s[1..][i - 1];
    }
  }

  /** A zero word is eight zero bytes. */
  lemma ZeroWord(s: seq<byte>)
    ensures Word(Values(s)) == 0 <==> forall i :: 0 <= i < |s| ==> s[i] == 0
  {
    WordZero(Values(s));
    forall i | 0 <= i < |s| ensures Values(s)[i] == 0 <==> s[i] == 0 {
      ValueZero(s[i]);
    }
  }

  lemma ValueZero(b: byte)
    ensures b as int == 0 <==> b == 0
  {
  }
}
