/** Machine bytes, fixed-width unsigned integers and the memory primitives of kernel/string.c. */
module Bytes {

  // A C char as the kernel stores it: eight bits.
  type Byte = c: char | c as int < 256 witness '\0'
  type Bytes = seq<Byte>

  type U8 = x: int | 0 <= x < 0x100
  type U16 = x: int | 0 <= x < 0x1_0000
  type U32 = x: int | 0 <= x < 0x1_0000_0000

  function Min(a: nat, b: nat): nat { if a < b then a else b }

  // s with its k-th element replaced.
  ghost function Put<T>(s: seq<T>, k: nat, v: T): (r: seq<T>)
    requires k < |s|
    ensures |r| == |s|
  {
    s[k := v]
  }

  // Digit k of the little-endian base-256 representation of v.
  function Digit(v: U32, k: nat): Byte
    requires k < 4
  {
    ((if k == 0 then v else if k == 1 then v / 0x100 else if k == 2 then v / 0x1_0000 else v / 0x100_0000) % 256) as char
  }

  function ReadU16(b: Bytes, off: nat): U16
    requires off + 2 <= |b|
  {
    b[off] as int + 0x100 * b[off + 1] as int
  }

  function ReadU32(b: Bytes, off: nat): U32
    requires off + 4 <= |b|
  {
    b[off] as int + 0x100 * b[off + 1] as int + 0x1_0000 * b[off + 2] as int + 0x100_0000 * b[off + 3] as int
  }

  ghost predicate HoldsU16(b: Bytes, off: nat, v: U16)
    requires off + 2 <= |b|
  {
    b[off] == Digit(v, 0) && b[off + 1] == Digit(v, 1)
  }

  ghost predicate HoldsU32(b: Bytes, off: nat, v: U32)
    requires off + 4 <= |b|
  {
    b[off] == Digit(v, 0) && b[off + 1] == Digit(v, 1) && b[off + 2] == Digit(v, 2) && b[off + 3] == Digit(v, 3)
  }

  lemma U16RoundTrip(b: Bytes, off: nat, v: U16)
    requires off + 2 <= |b| && HoldsU16(b, off, v)
    ensures ReadU16(b, off) == v
  {
    assert v / 0x100 % 256 == v / 0x100;
  }

  lemma U32RoundTrip(b: Bytes, off: nat, v: U32)
    requires off + 4 <= |b| && HoldsU32(b, off, v)
    ensures ReadU32(b, off) == v
  {
    var q1, q2, q3 := v / 0x100, v / 0x1_0000, v / 0x100_0000;
    assert q1 / 0x100 == q2 && q2 / 0x100 == q3 && q3 % 256 == q3;
  }

  // The value of bytes, the lowest first.
  function LowFirst(b: Bytes): nat { if b == [] then 0 else b[0] as int + 256 * LowFirst(b[1..]) }

  // Stored numbers have their lowest byte first.
  lemma LittleEndian(b: Bytes, off: nat, v: U32)
    requires off + 4 <= |b| && HoldsU32(b, off, v)
    ensures LowFirst(b[off..off + 4]) == v && ReadU32(b, off) == v
    ensures v < 0x1_0000 ==> LowFirst(b[off..off + 2]) == v && ReadU16(b, off) == v
  {
    U32RoundTrip(b, off, v);
    FourBytes(b[off..off + 4]);
    TwoBytes(b[off..off + 2]);
  }

  lemma FourBytes(b: Bytes)
    requires |b| == 4
    ensures LowFirst(b) == b[0] as int + 0x100 * b[1] as int + 0x1_0000 * b[2] as int + 0x100_0000 * b[3] as int
  {
    assert b[1..][1..] == b[2..] && b[2..][1..] == b[3..] && b[3..][1..] == [];
    assert LowFirst(b[3..]) == b[3] as int && LowFirst(b[2..]) == b[2] as int + 256 * b[3] as int;
  }

  lemma TwoBytes(b: Bytes)
    requires |b| == 2
    ensures LowFirst(b) == b[0] as int + 0x100 * b[1] as int
  {
    assert b[1..][1..] == [];
    assert LowFirst(b[1..]) == b[1] as int;
  }

  function Zeros(n: nat): (z: Bytes)
    ensures |z| == n && forall i :: 0 <= i < n ==> z[i] == '\0'
  {
    seq(n, i => '\0')
  }

  // memcpy into a buffer (kernel/string.c:95-100).
  method CopyInto(dst: array<Byte>, at: nat, src: Bytes)
    requires at + |src| <= dst.Length
    modifies dst
    ensures dst[..] == old(dst[..at]) + src + old(dst[at + |src|..])
  {
    ghost var was := dst[..];
    var i := 0;
    assert was[..at] + src[..0] + was[at..] == was;
    while i < |src|
      invariant 0 <= i <= |src|
      invariant dst[..] == CopiedSoFar(was, at, src, i)
    {
      hide CopiedSoFar;
      CopiedOne(was, at, src, i);
      dst[at + i] := src[i];
      i := i + 1;
    }
    assert src[..i] == src;
  }

  ghost function CopiedSoFar(was: Bytes, at: nat, src: Bytes, i: nat): (now: Bytes)
    requires i <= |src| && at + |src| <= |was|
    ensures |now| == |was|
  {
    was[..at] + src[..i] + was[at + i..]
  }

  lemma CopiedOne(was: Bytes, at: nat, src: Bytes, i: nat)
    requires i < |src| && at + |src| <= |was|
    ensures Put<Byte>(CopiedSoFar(was, at, src, i), at + i, src[i]) == CopiedSoFar(was, at, src, i + 1)
  {
  }

  // memset with value zero (kernel/string.c:89-93).
  method Clear(dst: array<Byte>)
    modifies dst
    ensures dst[..] == Zeros(dst.Length)
  {
    var i := 0;
    while i < dst.Length
      invariant 0 <= i <= dst.Length
      invariant forall k :: 0 <= k < i ==> dst[k] == '\0'
    {
      dst[i] := '\0';
      i := i + 1;
    }
  }

  method StoreU16(dst: array<Byte>, at: nat, v: U16)
    requires at + 2 <= dst.Length
    modifies dst
    ensures ReadU16(dst[..], at) == v
    ensures forall k :: 0 <= k < dst.Length && !(at <= k < at + 2) ==> dst[k] == old(dst[k])
  {
    dst[at] := Digit(v, 0);
    dst[at + 1] := Digit(v, 1);
    U16RoundTrip(dst[..], at, v);
  }

  method StoreU32(dst: array<Byte>, at: nat, v: U32)
    requires at + 4 <= dst.Length
    modifies dst
    ensures ReadU32(dst[..], at) == v
    ensures forall k :: 0 <= k < dst.Length && !(at <= k < at + 4) ==> dst[k] == old(dst[k])
  {
    dst[at] := Digit(v, 0);
    dst[at + 1] := Digit(v, 1);
    dst[at + 2] := Digit(v, 2);
    dst[at + 3] := Digit(v, 3);
    U32RoundTrip(dst[..], at, v);
  }
}
