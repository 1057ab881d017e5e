/** Byte strings, little-endian integers, and where a part lies within a whole. */
module Bytes {

  type Byte = b: int | 0 <= b < 256

  function Power256(k: nat): nat {
    if k == 0 then 1 else 256 * Power256(k - 1)
  }

  lemma Powers()
    ensures Power256(2) == 0x1_0000
    ensures Power256(4) == 0x1_0000_0000
    ensures Power256(8) == 0x1_0000_0000_0000_0000
  {
    assert Power256(2) == 256 * Power256(1);
    assert Power256(4) == 256 * (256 * Power256(2));
    assert Power256(6) == 256 * (256 * Power256(4));
    assert Power256(8) == 256 * (256 * Power256(6));
  }

  // the k low bytes of n, least significant first
  function LittleEndian(n: nat, k: nat): (r: seq<Byte>)
    ensures |r| == k
  {
    if k == 0 then [] else [n % 256] + LittleEndian(n / 256, k - 1)
  }

  function FromLittleEndian(bytes: seq<Byte>): nat {
    if bytes == [] then 0 else bytes[0] + 256 * FromLittleEndian(bytes[1..])
  }

  // an integer field keeps a value exactly when the value fits
  lemma {:induction false} LittleEndianRoundTrip(n: nat, k: nat)
    ensures FromLittleEndian(LittleEndian(n, k)) < Power256(k)
    ensures FromLittleEndian(LittleEndian(n, k)) == n <==> n < Power256(k)
  {
    if k > 0 {
      LittleEndianRoundTrip(n / 256, k - 1);
      var r := LittleEndian(n / 256, k - 1);
      assert LittleEndian(n, k)[1..] == r;
      assert n == 256 * (n / 256) + n % 256;
    }
  }

  function U64(n: nat): (r: seq<Byte>)
    ensures |r| == 8
  {
    LittleEndian(n, 8)
  }

  function U32(n: nat): (r: seq<Byte>)
    ensures |r| == 4
  {
    LittleEndian(n, 4)
  }

  function U16(n: nat): (r: seq<Byte>)
    ensures |r| == 2
  {
    LittleEndian(n, 2)
  }

  predicate IsU64(n: int) { 0 <= n < 0x1_0000_0000_0000_0000 }
  predicate IsU32(n: int) { 0 <= n < 0x1_0000_0000 }
  predicate IsI32(n: int) { -0x8000_0000 <= n < 0x8000_0000 }

  // two's complement
  function I32(n: int): (r: seq<Byte>)
    ensures |r| == 4
  {
    U32(n % 0x1_0000_0000)
  }

  function I64(n: int): (r: seq<Byte>)
    ensures |r| == 8
  {
    U64(n % 0x1_0000_0000_0000_0000)
  }

  function ToI32(n: nat): int { if n < 0x8000_0000 then n else n - 0x1_0000_0000 }

  // the fields, byte for byte
  lemma FieldsInNumbers(n: nat)
    ensures U16(n) == [n % 256, n / 256 % 256]
    ensures U32(n) == [n % 256, n / 256 % 256, n / 65536 % 256, n / 16777216 % 256]
    ensures U64(n) == U32(n) + U32(n / 4294967296)
  {
    hide U32, U64;
    LowBytes(n, 2);
    LowBytes(n, 4);
    LowBytes(n, 8);
    LowBytes(n / 256, 1);
    LowBytes(n / 256, 3);
    LowBytes(n / 256, 7);
    LowBytes(n / 65536, 2);
    LowBytes(n / 65536, 6);
    LowBytes(n / 16777216, 1);
    LowBytes(n / 16777216, 5);
    LowBytes(n / 4294967296, 4);
    NoBytes(n);
    hide LittleEndian;
    assert U32(n) == LittleEndian(n, 4) && U64(n) == LittleEndian(n, 8) by { FieldsAre(n); }
    assert U32(n / 4294967296) == LittleEndian(n / 4294967296, 4) by { FieldsAre(n / 4294967296); }
  }

  lemma FieldsAre(n: nat)
    ensures U32(n) == LittleEndian(n, 4) && U64(n) == LittleEndian(n, 8)
  {
  }

  lemma LowBytes(n: nat, k: nat)
    requires k > 0
    ensures LittleEndian(n, k) == [n % 256] + LittleEndian(n / 256, k - 1)
    ensures n / 256 / 256 == n / 65536 && n / 65536 / 256 == n / 16777216 && n / 16777216 / 256 == n / 4294967296
  {
  }

  lemma NoBytes(n: nat)
    ensures LittleEndian(n, 0) == []
  {
  }

  lemma U64RoundTrip(n: nat)
    requires IsU64(n)
    ensures FromLittleEndian(U64(n)) == n
  {
    hide Power256, LittleEndian, FromLittleEndian;
    Powers();
    LittleEndianRoundTrip(n, 8);
  }

  lemma U32RoundTrip(n: nat)
    requires IsU32(n)
    ensures FromLittleEndian(U32(n)) == n
  {
    hide Power256, LittleEndian, FromLittleEndian;
    Powers();
    LittleEndianRoundTrip(n, 4);
  }

  lemma I32RoundTrip(n: int)
    requires IsI32(n)
    ensures ToI32(FromLittleEndian(I32(n))) == n
  {
    U32RoundTrip(n % 0x1_0000_0000);
  }

  function Zeros(n: nat): (r: seq<Byte>)
    ensures |r| == n
    ensures forall i :: 0 <= i < n ==> r[i] == 0
  {
    seq(n, _ => 0)
  }

  // round_up: the next multiple of a power of two, here always 8
  function RoundUp(length: nat): (r: nat)
    ensures length <= r < length + 8 && r % 8 == 0
  {
    (length + 7) / 8 * 8
  }

  // a part of a whole, at an offset
  predicate At(whole: seq<Byte>, offset: nat, part: seq<Byte>) {
    offset + |part| <= |whole| && whole[offset..offset + |part|] == part
  }

  lemma AtPart(whole: seq<Byte>, offset: nat, part: seq<Byte>, inner: nat, piece: seq<Byte>)
    requires At(whole, offset, part) && At(part, inner, piece)
    ensures At(whole, offset + inner, piece)
  {
    forall k | 0 <= k < |piece| ensures whole[offset + inner..offset + inner + |piece|][k] == piece[k] {
      assert part[inner..inner + |piece|][k] == whole[offset..offset + |part|][inner + k];
    }
  }

  lemma AtConcat(a: seq<Byte>, b: seq<Byte>, c: seq<Byte>)
    ensures At(a + b + c, |a|, b)
  {
  }

  function Concat(parts: seq<seq<Byte>>): seq<Byte> {
    if parts == [] then [] else Concat(parts[..|parts| - 1]) + parts[|parts| - 1]
  }

  // where part i begins
  function OffsetOf(parts: seq<seq<Byte>>, i: nat): nat
    requires i <= |parts|
  {
    if i == 0 then 0 else OffsetOf(parts, i - 1) + |parts[i - 1]|
  }

  lemma {:induction false} OffsetOfPrefix(parts: seq<seq<Byte>>, n: nat, i: nat)
    requires i <= n <= |parts|
    ensures OffsetOf(parts[..n], i) == OffsetOf(parts, i)
  {
    if i > 0 {
      OffsetOfPrefix(parts, n, i - 1);
    }
  }

  lemma {:induction false} ConcatLength(parts: seq<seq<Byte>>)
    ensures |Concat(parts)| == OffsetOf(parts, |parts|)
  {
    if parts != [] {
      var n := |parts| - 1;
      ConcatLength(parts[..n]);
      OffsetOfPrefix(parts, n, n);
    }
  }

  lemma {:induction false} AtOffset(parts: seq<seq<Byte>>, i: nat)
    requires i < |parts|
    ensures At(Concat(parts), OffsetOf(parts, i), parts[i])
  {
    var n := |parts| - 1;
    OffsetOfPrefix(parts, n, n);
    ConcatLength(parts[..n]);
    if i < n {
      AtOffset(parts[..n], i);
      OffsetOfPrefix(parts, n, i);
      AtConcat([], Concat(parts[..n]), parts[n]);
      assert [] + Concat(parts[..n]) + parts[n] == Concat(parts);
      AtPart(Concat(parts), 0, Concat(parts[..n]), OffsetOf(parts, i), parts[i]);
    } else {
      AtConcat(Concat(parts[..n]), parts[n], []);
      assert Concat(parts[..n]) + parts[n] + [] == Concat(parts);
    }
  }

  // the first i + 1 parts are the first i and part i, and lie within the whole
  lemma NextPart(parts: seq<seq<Byte>>, i: nat)
    requires i < |parts|
    ensures Concat(parts[..i + 1]) == Concat(parts[..i]) + parts[i]
    ensures |Concat(parts[..i])| == OffsetOf(parts, i)
    ensures OffsetOf(parts, i) + |parts[i]| <= |Concat(parts)|
    ensures parts[..|parts|] == parts && parts[..0] == []
  {
    assert parts[..i + 1][..i] == parts[..i];
    ConcatLength(parts[..i]);
    OffsetOfPrefix(parts, i, i);
    AtOffset(parts, i);
  }

  lemma {:induction false} EqualParts(parts: seq<seq<Byte>>, size: nat, i: nat)
    requires i <= |parts| && forall k :: 0 <= k < |parts| ==> |parts[k]| == size
    ensures OffsetOf(parts, i) == i * size
  {
    if i > 0 {
      EqualParts(parts, size, i - 1);
      assert i * size == (i - 1) * size + size;
    }
  }

  // memcpy
  method Put(buf: array<Byte>, offset: nat, bytes: seq<Byte>)
    requires offset + |bytes| <= buf.Length
    modifies buf
    ensures buf[..] == old(buf[..offset]) + bytes + old(buf[offset + |bytes|..])
  {
    for i := 0 to |bytes|
      invariant buf[..] == old(buf[..offset]) + bytes[..i] + old(buf[offset + i..])
    {
      buf[offset + i] := bytes[i];
    }
    assert bytes[..|bytes|] == bytes;
  }

  // std::string as bytes; a character above 255 has no counterpart there
  predicate IsByteString(s: string) {
    forall i :: 0 <= i < |s| ==> s[i] as int < 256
  }

  function ToBytes(s: string): (r: seq<Byte>)
    ensures |r| == |s|
    ensures forall i :: 0 <= i < |s| ==> r[i] == s[i] as int % 256
  {
    seq(|s|, i requires 0 <= i < |s| => s[i] as int % 256)
  }

  function FromBytes(bytes: seq<Byte>): (r: string)
    ensures |r| == |bytes|
    ensures forall i :: 0 <= i < |bytes| ==> r[i] as int == bytes[i]
  {
    seq(|bytes|, i requires 0 <= i < |bytes| => bytes[i] as char)
  }

  lemma BytesRoundTrip(s: string)
    requires IsByteString(s)
    ensures FromBytes(ToBytes(s)) == s
  {
    assert forall i :: 0 <= i < |s| ==> FromBytes(ToBytes(s))[i] as int == s[i] as int;
  }

  // ---- integers at an offset

  function U64At(base: seq<Byte>, offset: nat): nat
    requires offset + 8 <= |base|
  {
    FromLittleEndian(base[offset..offset + 8])
  }

  function U32At(base: seq<Byte>, offset: nat): nat
    requires offset + 4 <= |base|
  {
    FromLittleEndian(base[offset..offset + 4])
  }

  function I32At(base: seq<Byte>, offset: nat): int
    requires offset + 4 <= |base|
  {
    ToI32(U32At(base, offset))
  }

  lemma ReadU64(base: seq<Byte>, offset: nat, n: nat)
    requires At(base, offset, U64(n)) && IsU64(n)
    ensures U64At(base, offset) == n
  {
    hide U64, FromLittleEndian;
    U64RoundTrip(n);
  }

  lemma ReadU32(base: seq<Byte>, offset: nat, n: nat)
    requires At(base, offset, U32(n)) && IsU32(n)
    ensures U32At(base, offset) == n
  {
    hide U32, FromLittleEndian;
    U32RoundTrip(n);
  }

  lemma ReadI32(base: seq<Byte>, offset: nat, n: int)
    requires At(base, offset, I32(n)) && IsI32(n)
    ensures I32At(base, offset) == n
  {
    hide I32, FromLittleEndian;
    I32RoundTrip(n);
  }

  function U16At(base: seq<Byte>, offset: nat): nat
    requires offset + 2 <= |base|
  {
    FromLittleEndian(base[offset..offset + 2])
  }

  lemma ReadU16(base: seq<Byte>, offset: nat, n: nat)
    requires At(base, offset, U16(n)) && n < 0x1_0000
    ensures U16At(base, offset) == n
  {
    hide Power256, LittleEndian, FromLittleEndian;
    Powers();
    LittleEndianRoundTrip(n, 2);
  }
}
