/** Bytes, little-endian fields and the cyclic checksums of src/protocol.cpp. */
module Checksums {
  type Bytes = seq<bv8>

  // ----- Numbers in bytes -----

  function Counted(n: nat): bv8
    requires n <= 255
  {
    if n == 0 then 0 else Counted(n - 1) + 1
  }

  lemma Increment(x: bv8)
    requires x != 255
    ensures (x + 1) as int == x as int + 1
  {
  }

  lemma {:induction false} CountedIs(n: nat)
    requires n <= 255
    ensures Counted(n) as int == n
  {
    if n == 0 {
    } else {
      CountedIs(n - 1);
      Increment(Counted(n - 1));
    }
  }

  lemma ByteOfInt(x: bv8)
    ensures x as int as bv8 == x
  {
  }

  /** A number below 256 survives the cast to a byte. */
  lemma IntOfByte(n: nat)
    requires n <= 255
    ensures (n as bv8) as int == n
  {
    CountedIs(n);
    ByteOfInt(Counted(n));
  }

  function Le16(n: nat): (r: Bytes)
    requires n < 0x1_0000
    ensures |r| == 2
  {
    [(n % 256) as bv8, (n / 256) as bv8]
  }

  function ReadLe16(low: bv8, high: bv8): (n: nat)
    ensures n < 0x1_0000
  {
    low as int + 256 * (high as int)
  }

  lemma Le16RoundTrip(n: nat)
    requires n < 0x1_0000
    ensures ReadLe16(Le16(n)[0], Le16(n)[1]) == n
  {
    IntOfByte(n % 256);
    IntOfByte(n / 256);
  }

  function Le32(x: bv32): (r: Bytes)
    ensures |r| == 4
  {
    [(x & 0xFF) as bv8, ((x >> 8) & 0xFF) as bv8, ((x >> 16) & 0xFF) as bv8, ((x >> 24) & 0xFF) as bv8]
  }

  function ReadLe32(b: Bytes): bv32
    requires |b| == 4
  {
    (b[0] as bv32) | ((b[1] as bv32) << 8) | ((b[2] as bv32) << 16) | ((b[3] as bv32) << 24)
  }

  lemma Le32RoundTrip(x: bv32)
    ensures ReadLe32(Le32(x)) == x
  {
  }

  lemma ReadLe32IsInjective(a: Bytes, b: Bytes)
    requires |a| == |b| == 4 && ReadLe32(a) == ReadLe32(b)
    ensures a == b
  {
    FourBytesAreSeparate(a[0], a[1], a[2], a[3], b[0], b[1], b[2], b[3]);
  }

  lemma FourBytesAreSeparate(x: bv8, y: bv8, z: bv8, w: bv8, p: bv8, q: bv8, r: bv8, s: bv8)
    requires (x as bv32) | ((y as bv32) << 8) | ((z as bv32) << 16) | ((w as bv32) << 24)
      == (p as bv32) | ((q as bv32) << 8) | ((r as bv32) << 16) | ((s as bv32) << 24)
    ensures x == p && y == q && z == r && w == s
  {
  }

  // ----- CRC-32 (crc32IsoHdlc) -----

  function Crc32Bit(crc: bv32): bv32 {
    (crc >> 1) ^ (0xEDB88320 & (0 - (crc & 1)))
  }

  function Crc32Bits(crc: bv32, bits: nat): bv32 {
    if bits == 0 then crc else Crc32Bit(Crc32Bits(crc, bits - 1))
  }

  lemma Crc32BitsStep(crc: bv32, bits: nat)
    ensures Crc32Bits(crc, 0) == crc && Crc32Bits(crc, bits + 1) == Crc32Bit(Crc32Bits(crc, bits))
  {
    hide Crc32Bit;
  }

  function Crc32Byte(crc: bv32, b: bv8): bv32 {
    Crc32Bits(crc ^ (b as bv32), 8)
  }

  function Crc32From(crc: bv32, data: Bytes): bv32 {
    if data == [] then crc else Crc32Byte(Crc32From(crc, data[..|data| - 1]), data[|data| - 1])
  }

  function Crc32(data: Bytes): bv32 {
    !Crc32From(0xFFFFFFFF, data)
  }

  /** The inner loop over the bits of one byte. */
  method Crc32Fold(crc: bv32, b: bv8) returns (r: bv32)
    ensures r == Crc32Byte(crc, b)
  {
    hide Crc32Bit, Crc32Bits;
    var start := crc ^ (b as bv32);
    r := start;
    Crc32BitsStep(start, 0);
    var bit := 0;
    while bit < 8
      invariant 0 <= bit <= 8 && r == Crc32Bits(start, bit)
    {
      Crc32BitsStep(start, bit);
      r := Crc32Bit(r);
      bit := bit + 1;
    }
  }

  method ComputeCrc32(data: array<bv8>, length: nat) returns (crc: bv32)
    requires length <= data.Length
    ensures crc == Crc32(data[..length])
  {
    hide Crc32Byte;
    crc := 0xFFFFFFFF;
    var i := 0;
    while i < length
      invariant 0 <= i <= length && crc == Crc32From(0xFFFFFFFF, data[..i])
    {
      assert data[..i + 1][..i] == data[..i];
      crc := Crc32Fold(crc, data[i]);
      i := i + 1;
    }
    crc := !crc;
  }

  lemma Crc32BitIsInjective(a: bv32, b: bv32)
    requires Crc32Bit(a) == Crc32Bit(b)
    ensures a == b
  {
  }

  lemma {:induction false} Crc32BitsIsInjective(a: bv32, b: bv32, bits: nat)
    requires Crc32Bits(a, bits) == Crc32Bits(b, bits)
    ensures a == b
    decreases bits
  {
    hide Crc32Bit;
    if bits == 0 {
    } else {
      Crc32BitIsInjective(Crc32Bits(a, bits - 1), Crc32Bits(b, bits - 1));
      Crc32BitsIsInjective(a, b, bits - 1);
    }
  }

  lemma XorCancels(a: bv32, b: bv32, x: bv8, y: bv8)
    requires a ^ (x as bv32) == b ^ (y as bv32)
    ensures x == y ==> a == b
    ensures a == b ==> x == y
  {
  }

  lemma Crc32ByteIsInjective(a: bv32, b: bv32, x: bv8, y: bv8)
    requires Crc32Byte(a, x) == Crc32Byte(b, y)
    ensures x == y ==> a == b
    ensures a == b ==> x == y
  {
    hide Crc32Bits;
    Crc32BitsIsInjective(a ^ (x as bv32), b ^ (y as bv32), 8);
    XorCancels(a, b, x, y);
  }

  /** Two texts of one length that differ in a single byte never have the same CRC-32. */
  lemma {:induction false} Crc32DetectsOneByte(crc: bv32, data: Bytes, k: nat, b: bv8)
    requires k < |data| && data[k] != b
    ensures Crc32From(crc, data) != Crc32From(crc, data[k := b])
    decreases |data|
  {
    hide Crc32Byte;
    var other := data[k := b];
    var n := |data| - 1;
    if k == n {
      assert other[..n] == data[..n];
      if Crc32From(crc, data) == Crc32From(crc, other) {
        Crc32ByteIsInjective(Crc32From(crc, data[..n]), Crc32From(crc, other[..n]), data[n], other[n]);
      }
    } else {
      assert other[..n] == data[..n][k := b];
      Crc32DetectsOneByte(crc, data[..n], k, b);
      if Crc32From(crc, data) == Crc32From(crc, other) {
        Crc32ByteIsInjective(Crc32From(crc, data[..n]), Crc32From(crc, other[..n]), data[n], other[n]);
      }
    }
  }

  // ----- CRC-16 (crc16CcittFalseUpdate) -----

  function Crc16Bit(crc: bv16): bv16 {
    if crc & 0x8000 != 0 then (crc << 1) ^ 0x1021 else crc << 1
  }

  function Crc16Bits(crc: bv16, bits: nat): bv16 {
    if bits == 0 then crc else Crc16Bit(Crc16Bits(crc, bits - 1))
  }

  lemma Crc16BitsStep(crc: bv16, bits: nat)
    ensures Crc16Bits(crc, 0) == crc && Crc16Bits(crc, bits + 1) == Crc16Bit(Crc16Bits(crc, bits))
  {
    hide Crc16Bit;
  }

  function Crc16Byte(crc: bv16, b: bv8): bv16 {
    Crc16Bits(crc ^ ((b as bv16) << 8), 8)
  }

  function Crc16From(crc: bv16, data: Bytes): bv16 {
    if data == [] then crc else Crc16Byte(Crc16From(crc, data[..|data| - 1]), data[|data| - 1])
  }

  method Crc16Fold(crc: bv16, b: bv8) returns (r: bv16)
    ensures r == Crc16Byte(crc, b)
  {
    hide Crc16Bit, Crc16Bits;
    var start := crc ^ ((b as bv16) << 8);
    r := start;
    Crc16BitsStep(start, 0);
    var bit := 0;
    while bit < 8
      invariant 0 <= bit <= 8 && r == Crc16Bits(start, bit)
    {
      Crc16BitsStep(start, bit);
      r := Crc16Bit(r);
      bit := bit + 1;
    }
  }

  method Crc16Update(initial: bv16, data: array<bv8>, length: nat) returns (crc: bv16)
    requires length <= data.Length
    ensures crc == Crc16From(initial, data[..length])
  {
    hide Crc16Byte;
    crc := initial;
    var i := 0;
    while i < length
      invariant 0 <= i <= length && crc == Crc16From(initial, data[..i])
    {
      assert data[..i + 1][..i] == data[..i];
      crc := Crc16Fold(crc, data[i]);
      i := i + 1;
    }
  }

  /** Any cutting of the data into fragments gives the checksum of the whole. */
  lemma {:induction false} Crc16IsStreaming(crc: bv16, a: Bytes, b: Bytes)
    ensures Crc16From(crc, a + b) == Crc16From(Crc16From(crc, a), b)
    decreases |b|
  {
    hide Crc16Byte;
    if b == [] {
      assert a + b == a;
    } else {
      var ab := a + b;
      assert ab[..|ab| - 1] == a + b[..|b| - 1];
      Crc16IsStreaming(crc, a, b[..|b| - 1]);
    }
  }
}
