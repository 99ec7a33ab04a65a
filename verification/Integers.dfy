/** Little-endian integers, as memcpy lays them out in records, keys and log records. */
module Integers {
  import opened Types

  const TWO31 := 0x8000_0000
  const TWO32 := 0x1_0000_0000
  const TWO64 := 0x1_0000_0000_0000_0000

  function LittleEndian(x: nat, n: nat): (s: seq<Byte>)
    ensures |s| == n
  {
    if n == 0 then [] else [x % 256] + LittleEndian(x / 256, n - 1)
  }

  function FromLittleEndian(s: seq<Byte>): nat {
    if s == [] then 0 else s[0] + 256 * FromLittleEndian(s[1..])
  }

  function Pow256(n: nat): nat {
    if n == 0 then 1 else 256 * Pow256(n - 1)
  }

  lemma {:induction false} LittleEndianRoundTrip(x: nat, n: nat)
    requires x < Pow256(n)
    ensures FromLittleEndian(LittleEndian(x, n)) == x
  {
    if n == 0 {
    } else {
      assert x / 256 < Pow256(n - 1);
      LittleEndianRoundTrip(x / 256, n - 1);
    }
  }

  predicate IsInt32(x: int) { -TWO31 <= x < TWO31 }

  /** A 32-bit two's complement integer as memcpy lays it out. */
  function Int32(x: int): (s: seq<Byte>)
    requires IsInt32(x)
    ensures |s| == 4
  {
    LittleEndian(if x < 0 then x + TWO32 else x, 4)
  }

  function ReadUint(s: seq<Byte>, at: nat, n: nat): nat
    requires at + n <= |s|
  {
    FromLittleEndian(s[at..at + n])
  }

  function ReadInt32(s: seq<Byte>, at: nat): int
    requires at + 4 <= |s|
  {
    var x := ReadUint(s, at, 4);
    if x >= TWO31 then x - TWO32 else x
  }

  lemma ReadBackInt32(s: seq<Byte>, at: nat, x: int)
    requires IsInt32(x) && at + 4 <= |s| && s[at..at + 4] == Int32(x)
    ensures ReadInt32(s, at) == x
  {
    assert Pow256(4) == TWO32 by { assert Pow256(2) == 0x1_0000; }
    LittleEndianRoundTrip(if x < 0 then x + TWO32 else x, 4);
  }

  lemma ReadBackUint(s: seq<Byte>, at: nat, x: nat, n: nat)
    requires x < Pow256(n) && at + n <= |s| && s[at..at + n] == LittleEndian(x, n)
    ensures ReadUint(s, at, n) == x
  {
    LittleEndianRoundTrip(x, n);
  }

  lemma Pow256Values()
    ensures Pow256(4) == TWO32 && Pow256(8) == TWO64
  {
    assert Pow256(2) == 0x1_0000;
    assert Pow256(4) == 0x1_0000_0000;
    assert Pow256(6) == 0x1_0000_0000_0000;
  }

  lemma LowByteFirst(b: Byte, rest: seq<Byte>)
    ensures FromLittleEndian([b] + rest) == b + 256 * FromLittleEndian(rest)
  {
    assert ([b] + rest)[1..] == rest;
  }

  /** The byte order of the encoding. */
  lemma FourBytes(a: Byte, b: Byte, c: Byte, d: Byte)
    ensures FromLittleEndian([a, b, c, d]) == a + 256 * b + 65536 * c + 16777216 * d
  {
    hide FromLittleEndian;
    assert FromLittleEndian([]) == 0 by { NoBytes(); }
    LowByteFirst(d, []);
    LowByteFirst(c, [d]);
    LowByteFirst(b, [c, d]);
    LowByteFirst(a, [b, c, d]);
    assert [d] + [] == [d] && [c] + [d] == [c, d] && [b] + [c, d] == [b, c, d] && [a] + [b, c, d] == [a, b, c, d];
  }

  lemma NoBytes()
    ensures FromLittleEndian([]) == 0
  {
  }
}
