/** Little-endian integers of fixed width, as the device writes them on the wire. */
module LittleEndian {
  const TWO8: int := 0x100
  const TWO16: int := 0x1_0000
  const TWO24: int := 0x100_0000
  const TWO32: int := 0x1_0000_0000

  type Byte = b: int | 0 <= b < 0x100
  type U16 = n: int | 0 <= n < 0x1_0000
  type U32 = n: int | 0 <= n < 0x1_0000_0000
  type U64 = n: int | 0 <= n < 0x1_0000_0000_0000_0000
  type I32 = n: int | -0x8000_0000 <= n < 0x8000_0000

  function U16At(s: seq<Byte>, at: nat): U16
    requires at + 2 <= |s|
  {
    s[at] + TWO8 * s[at + 1]
  }

  function U32At(s: seq<Byte>, at: nat): U32
    requires at + 4 <= |s|
  {
    s[at] + TWO8 * s[at + 1] + TWO16 * s[at + 2] + TWO24 * s[at + 3]
  }

  function U64At(s: seq<Byte>, at: nat): U64
    requires at + 8 <= |s|
  {
    U32At(s, at) + TWO32 * U32At(s, at + 4)
  }

  /** The two's-complement reading of a 32-bit word. */
  function Signed(n: U32): I32 {
    if n < 0x8000_0000 then n else n - TWO32
  }

  function Unsigned(n: I32): U32 {
    if n >= 0 then n else n + TWO32
  }

  function Bytes16(n: U16): (s: seq<Byte>)
    ensures |s| == 2 && U16At(s, 0) == n
  {
    [n % 0x100, n / 0x100]
  }

  function Bytes32(n: U32): (s: seq<Byte>)
    ensures |s| == 4 && U32At(s, 0) == n
  {
    var n1 := n / 0x100;
    var n2 := n1 / 0x100;
    [n % 0x100, n1 % 0x100, n2 % 0x100, n2 / 0x100]
  }

  function Bytes64(n: U64): (s: seq<Byte>)
    ensures |s| == 8 && U64At(s, 0) == n
  {
    var low, high := Bytes32(n % 0x1_0000_0000), Bytes32(n / 0x1_0000_0000);
    assert (low + high)[..4] == low && (low + high)[4..] == high;
    low + high
  }

  /** The lowest byte comes first, and the sign is in the last. */
  lemma {:induction false} LowestByteFirst()
    ensures U16At([1, 2], 0) == 0x0201 && U32At([1, 2, 3, 4], 0) == 0x0403_0201
    ensures U64At([1, 2, 3, 4, 5, 6, 7, 8], 0) == 0x0807_0605_0403_0201
    ensures Signed(U32At([0xFE, 0xFF, 0xFF, 0xFF], 0)) == -2 && Signed(U32At([0, 0, 0, 0x80], 0)) == -0x8000_0000
  {
  }

  /** A word is determined by its bytes: encoding what was read gives the bytes back. */
  lemma Bytes32OfU32At(s: seq<Byte>, at: nat)
    requires at + 4 <= |s|
    ensures Bytes32(U32At(s, at)) == s[at..at + 4]
  {
    var a, b, c, d := s[at], s[at + 1], s[at + 2], s[at + 3];
    var n := U32At(s, at);
    assert n / 0x100 == b + TWO8 * c + TWO16 * d;
    assert (b + TWO8 * c + TWO16 * d) / 0x100 == c + TWO8 * d;
    assert s[at..at + 4] == [a, b, c, d];
  }

  lemma Bytes16OfU16At(s: seq<Byte>, at: nat)
    requires at + 2 <= |s|
    ensures Bytes16(U16At(s, at)) == s[at..at + 2]
  {
    assert s[at..at + 2] == [s[at], s[at + 1]];
  }

  /** A group of bytes found at an offset is read there as it is read alone. */
  lemma Shift(s: seq<Byte>, group: seq<Byte>, offset: nat)
    requires offset + |group| <= |s| && s[offset..offset + |group|] == group
    ensures forall i: nat {:trigger U16At(s, i)} | offset <= i && i + 2 <= offset + |group| ::
              U16At(s, i) == U16At(group, i - offset)
    ensures forall i: nat {:trigger U32At(s, i)} | offset <= i && i + 4 <= offset + |group| ::
              U32At(s, i) == U32At(group, i - offset)
    ensures forall i: nat {:trigger U64At(s, i)} | offset <= i && i + 8 <= offset + |group| ::
              U64At(s, i) == U64At(group, i - offset)
  {
    assert forall i: nat {:trigger s[i]} | offset <= i < offset + |group| :: s[i] == group[i - offset];
  }

  lemma NoWrap(n: nat)
    requires n < TWO32
    ensures n % TWO32 == n
  {
  }
}
