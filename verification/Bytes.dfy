/** Bytes, fixed-width integers and the record fields built from them. */
module Bytes {

  newtype byte = x: int | 0 <= x < 256

  const TWO_TO_THE_31 := 0x8000_0000
  const TWO_TO_THE_32 := 0x1_0000_0000
  const TWO_TO_THE_63 := 0x8000_0000_0000_0000
  const TWO_TO_THE_64 := 0x1_0000_0000_0000_0000

  type uint32 = x: int | 0 <= x < TWO_TO_THE_32
  type uint64 = x: int | 0 <= x < TWO_TO_THE_64

  function Min(a: int, b: int): int {
    if a < b then a else b
  }

  function Max(a: int, b: int): int {
    if a < b then b else a
  }

  /** Conversion to a 32-bit two's complement `int`. */
  function ToInt32(x: int): int {
    var low := x % TWO_TO_THE_32;
    if low < TWO_TO_THE_31 then low else low - TWO_TO_THE_32
  }

  /** A number that fits is kept; any other is moved by a multiple of 2^32 to one that does. */
  lemma ToInt32Small(x: int)
    ensures -TWO_TO_THE_31 <= ToInt32(x) < TWO_TO_THE_31 && (x - ToInt32(x)) % TWO_TO_THE_32 == 0
    ensures -TWO_TO_THE_31 <= x < TWO_TO_THE_31 ==> ToInt32(x) == x
  {
  }

  /** `n` zero bytes. */
  function Zeros(n: nat): (zeros: seq<byte>)
    ensures |zeros| == n
  {
    seq(n, _ => 0)
  }

  /** The four bytes of a 32-bit field, low byte first. */
  function Word(x: uint32): (bytes: seq<byte>)
    ensures |bytes| == 4
  {
    [(x % 256) as byte, (x / 256 % 256) as byte, (x / 65536 % 256) as byte, (x / 16777216) as byte]
  }

  function WordAt(bytes: seq<byte>, offset: nat): uint32
    requires offset + 4 <= |bytes|
  {
    bytes[offset] as int + 256 * bytes[offset + 1] as int
    + 65536 * bytes[offset + 2] as int + 16777216 * bytes[offset + 3] as int
  }

  lemma WordRoundTrip(x: uint32)
    ensures WordAt(Word(x), 0) == x
  {
    var a, b := x / 256, x / 65536;
    assert a / 256 == b && b / 256 == x / 16777216;
    assert x == x % 256 + 256 * a && a == a % 256 + 256 * b && b == b % 256 + 256 * (x / 16777216);
  }

  /** A word read out of a longer record is the word that was put there. */
  lemma WordAtSlice(bytes: seq<byte>, offset: nat, x: uint32)
    requires offset + 4 <= |bytes| && bytes[offset..offset + 4] == Word(x)
    ensures WordAt(bytes, offset) == x
  {
    WordRoundTrip(x);
    var w := bytes[offset..offset + 4];
    assert forall i | 0 <= i < 4 :: w[i] == bytes[offset + i];
    assert w[0] == bytes[offset] && w[1] == bytes[offset + 1];
    assert w[2] == bytes[offset + 2] && w[3] == bytes[offset + 3];
  }

  function Bit(b: bool): nat {
    if b then 1 else 0
  }

  /** The word whose bit `i` is `bits[i]`. */
  function WordOfBits(bits: seq<bool>): nat {
    if |bits| == 0 then 0 else Bit(bits[0]) + 2 * WordOfBits(bits[1..])
  }

  function BitsOfWord(x: nat, width: nat): (bits: seq<bool>)
    ensures |bits| == width
  {
    if width == 0 then [] else [x % 2 == 1] + BitsOfWord(x / 2, width - 1)
  }

  function PowerOfTwo(n: nat): nat {
    if n == 0 then 1 else 2 * PowerOfTwo(n - 1)
  }

  lemma {:induction false} BitsRoundTrip(bits: seq<bool>)
    ensures BitsOfWord(WordOfBits(bits), |bits|) == bits
    ensures WordOfBits(bits) < PowerOfTwo(|bits|)
  {
    if |bits| > 0 {
      BitsRoundTrip(bits[1..]);
      assert bits == [bits[0]] + bits[1..];
      assert WordOfBits(bits) / 2 == WordOfBits(bits[1..]);
    }
  }

  /** Flipping entry `n` of the bit list is the exclusive-or of the word with `1 << n`. */
  lemma {:induction false} ToggleIsXor(bits: seq<bool>, n: nat)
    requires n < |bits|
    ensures WordOfBits(bits[n := !bits[n]])
         == if bits[n] then WordOfBits(bits) - PowerOfTwo(n) else WordOfBits(bits) + PowerOfTwo(n)
  {
    var flipped := bits[n := !bits[n]];
    if n > 0 {
      ToggleIsXor(bits[1..], n - 1);
      assert flipped[1..] == bits[1..][n - 1 := !bits[1..][n - 1]];
    } else {
      assert flipped[1..] == bits[1..];
    }
  }

  lemma ThirtyTwoBits()
    ensures PowerOfTwo(32) == TWO_TO_THE_32
  {
    assert PowerOfTwo(8) == 256;
    assert PowerOfTwo(16) == 65536;
    assert PowerOfTwo(24) == 16777216;
  }
}
