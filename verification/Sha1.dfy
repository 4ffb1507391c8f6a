/** Streaming SHA-1 and the hexadecimal digests of git objects (src/git_sha1.cpp), against the
    definitions of FIPS 180-4. */
module Sha1Hash {
  import opened Common
  import opened Checksums

  const DIGEST_SIZE: nat := 20
  const LENGTH_WORD: nat := 0x1_0000_0000_0000_0000

  datatype Hash = Hash(a: bv32, b: bv32, c: bv32, d: bv32, e: bv32)

  const INITIAL := Hash(0x67452301, 0xEFCDAB89, 0x98BADCFE, 0x10325476, 0xC3D2E1F0)

  // ----- The definition (sections 4.1.1, 5.1.1 and 6.1.2 of FIPS 180-4) -----

  function RotateLeft(value: bv32, bits: bv32): bv32
    requires 0 < bits < 32
  {
    (value << bits) | (value >> (32 - bits))
  }

  function Ch(x: bv32, y: bv32, z: bv32): bv32 { (x & y) ^ (!x & z) }
  function Parity(x: bv32, y: bv32, z: bv32): bv32 { x ^ y ^ z }
  function Maj(x: bv32, y: bv32, z: bv32): bv32 { (x & y) ^ (x & z) ^ (y & z) }

  function F(t: nat, x: bv32, y: bv32, z: bv32): bv32 {
    if t < 20 then Ch(x, y, z) else if t < 40 then Parity(x, y, z) else if t < 60 then Maj(x, y, z) else Parity(x, y, z)
  }

  function K(t: nat): bv32 {
    if t < 20 then 0x5A827999 else if t < 40 then 0x6ED9EBA1 else if t < 60 then 0x8F1BBCDC else 0xCA62C1D6
  }

  function WordAt(block: Bytes, t: nat): bv32
    requires |block| == 64 && t < 16
  {
    ((block[4 * t] as bv32) << 24) | ((block[4 * t + 1] as bv32) << 16)
    | ((block[4 * t + 2] as bv32) << 8) | (block[4 * t + 3] as bv32)
  }

  function Mix(x: bv32, y: bv32, z: bv32, w: bv32): bv32 { x ^ y ^ z ^ w }

  /** The message schedule. */
  function W(block: Bytes, t: nat): bv32
    requires |block| == 64
  {
    if t < 16 then WordAt(block, t)
    else RotateLeft(Mix(W(block, t - 3), W(block, t - 8), W(block, t - 14), W(block, t - 16)), 1)
  }

  function Sum5(a: bv32, b: bv32, c: bv32, d: bv32, e: bv32): bv32 { a + b + c + d + e }

  function Round(h: Hash, t: nat, w: bv32): Hash {
    Hash(Sum5(RotateLeft(h.a, 5), F(t, h.b, h.c, h.d), h.e, K(t), w), h.a, RotateLeft(h.b, 30), h.c, h.d)
  }

  function Rounds(h: Hash, block: Bytes, t: nat): Hash
    requires |block| == 64
  {
    if t == 0 then h else Round(Rounds(h, block, t - 1), t - 1, W(block, t - 1))
  }

  function AddHash(h: Hash, g: Hash): Hash {
    Hash(h.a + g.a, h.b + g.b, h.c + g.c, h.d + g.d, h.e + g.e)
  }

  function Compress(h: Hash, block: Bytes): Hash
    requires |block| == 64
  {
    AddHash(h, Rounds(h, block, 80))
  }

  function HashBlocks(data: Bytes): Hash
    requires |data| % 64 == 0
  {
    if data == [] then INITIAL else Compress(HashBlocks(data[..|data| - 64]), data[|data| - 64..])
  }

  function Zeros(k: nat): (r: Bytes)
    ensures |r| == k
  {
    seq(k, _ => 0)
  }

  /** Zero bytes between the marker and the length. */
  function Gap(length: nat): (k: nat)
    ensures k < 64 && (length + 1 + k) % 64 == 56
  {
    if length % 64 < 56 then 55 - length % 64 else 119 - length % 64
  }

  function BigEndian(n: nat, bytes: nat): (r: Bytes)
    ensures |r| == bytes
  {
    if bytes == 0 then [] else BigEndian(n / 256, bytes - 1) + [(n % 256) as bv8]
  }

  lemma PadLength(m: nat)
    ensures (m + 1 + Gap(m) + 8) % 64 == 0
  {
    hide Gap;
  }

  function Pad(message: Bytes): (r: Bytes)
    ensures |r| % 64 == 0
  {
    PadLength(|message|);
    message + [0x80] + Zeros(Gap(|message|)) + BigEndian(8 * |message| % LENGTH_WORD, 8)
  }

  function WordBytes(x: bv32): (r: Bytes)
    ensures |r| == 4
  {
    [((x >> 24) & 0xFF) as bv8, ((x >> 16) & 0xFF) as bv8, ((x >> 8) & 0xFF) as bv8, (x & 0xFF) as bv8]
  }

  function DigestOf(h: Hash): (r: Bytes)
    ensures |r| == DIGEST_SIZE
  {
    WordBytes(h.a) + WordBytes(h.b) + WordBytes(h.c) + WordBytes(h.d) + WordBytes(h.e)
  }

  function Sha1Of(message: Bytes): Bytes {
    DigestOf(HashBlocks(Pad(message)))
  }

  /** The padding is the shortest one: a marker byte, the length, and fewer than 64 zeros. */
  lemma PadIsShortest(message: Bytes, total: nat)
    requires total % 64 == 0 && total >= |message| + 9
    ensures |Pad(message)| % 64 == 0 && |message| + 9 <= |Pad(message)| <= total
    ensures Pad(message)[..|message|] == message && Pad(message)[|message|] == 0x80
  {
    hide Gap, BigEndian;
    var p := |Pad(message)|;
    assert p == |message| + 9 + Gap(|message|);
    MultiplesApart(p, total);
  }

  lemma MultiplesApart(p: nat, total: nat)
    requires p % 64 == 0 && total % 64 == 0 && p < total + 64
    ensures p <= total
  {
    assert p == 64 * (p / 64) && total == 64 * (total / 64);
  }

  lemma {:induction false} BigEndianValue(n: nat, bytes: nat, m: nat)
    requires BigEndian(n, bytes) == BigEndian(m, bytes) && n < Power256(bytes) && m < Power256(bytes)
    ensures n == m
    decreases bytes
  {
    hide BigEndian;
    if bytes == 0 {
    } else {
      LastByte(n, bytes);
      LastByte(m, bytes);
      BigEndianValue(n / 256, bytes - 1, m / 256);
    }
  }

  lemma LastByte(n: nat, bytes: nat)
    requires 0 < bytes && n < Power256(bytes)
    ensures BigEndian(n, bytes)[bytes - 1] as int == n % 256
    ensures BigEndian(n, bytes)[..bytes - 1] == BigEndian(n / 256, bytes - 1)
    ensures n / 256 < Power256(bytes - 1)
  {
    IntOfByte(n % 256);
    assert Power256(bytes) == 256 * Power256(bytes - 1);
  }

  function Power256(bytes: nat): nat {
    if bytes == 0 then 1 else 256 * Power256(bytes - 1)
  }

  lemma LengthFitsEightBytes()
    ensures Power256(8) == LENGTH_WORD
  {
    assert Power256(4) == 0x1_0000_0000;
  }

  /** Different messages are padded differently: nothing is lost before hashing. */
  lemma PadIsInjective(a: Bytes, b: Bytes)
    requires 8 * |a| < LENGTH_WORD && 8 * |b| < LENGTH_WORD && Pad(a) == Pad(b)
    ensures a == b
  {
    hide BigEndian, Pad;
    LengthFitsEightBytes();
    PadParts(a);
    PadParts(b);
    BigEndianValue(8 * |a|, 8, 8 * |b|);
  }

  lemma PadParts(m: Bytes)
    requires 8 * |m| < LENGTH_WORD
    ensures var p := Pad(m); |p| >= |m| + 9 && p[|p| - 8..] == BigEndian(8 * |m|, 8) && p[..|m|] == m
  {
    hide BigEndian, Gap;
  }

  // ----- The code's forms of the round functions -----

  function CodeCh(b: bv32, c: bv32, d: bv32): bv32 { (b & c) | (!b & d) }
  function CodeMaj(b: bv32, c: bv32, d: bv32): bv32 { (b & c) | (b & d) | (c & d) }

  function CodeF(t: nat, b: bv32, c: bv32, d: bv32): bv32 {
    if t < 20 then CodeCh(b, c, d) else if t < 40 then Parity(b, c, d)
    else if t < 60 then CodeMaj(b, c, d) else Parity(b, c, d)
  }

  lemma ChoiceBits(b: bv32, c: bv32, d: bv32)
    ensures (b & c) | (!b & d) == (b & c) ^ (!b & d)
  {
  }

  lemma MajorityBits(b: bv32, c: bv32, d: bv32)
    ensures (b & c) | (b & d) | (c & d) == (b & c) ^ (b & d) ^ (c & d)
  {
  }

  lemma ChForms(b: bv32, c: bv32, d: bv32)
    ensures CodeCh(b, c, d) == Ch(b, c, d)
  {
    ChoiceBits(b, c, d);
  }

  lemma MajForms(b: bv32, c: bv32, d: bv32)
    ensures CodeMaj(b, c, d) == Maj(b, c, d)
  {
    MajorityBits(b, c, d);
  }

  /** The or-forms of the code are the exclusive-or forms of the standard. */
  lemma CodeFIsF(t: nat, b: bv32, c: bv32, d: bv32)
    ensures CodeF(t, b, c, d) == F(t, b, c, d)
  {
    hide Ch, Maj, CodeCh, CodeMaj, Parity;
    ChForms(b, c, d);
    MajForms(b, c, d);
  }

  // ----- The running hash -----

  datatype Running = Running(hash: Hash, buffer: Bytes, used: nat)

  /** The state after a message: whole blocks are hashed, the rest waits in the buffer. */
  ghost predicate Fed(r: Running, message: Bytes) {
    && |r.buffer| == 64 && r.used == |message| % 64
    && r.buffer[..r.used] == message[|message| - r.used..]
    && (|message| - r.used) % 64 == 0
    && r.hash == HashBlocks(message[..|message| - r.used])
  }

  lemma FedNothing(buffer: Bytes)
    requires |buffer| == 64
    ensures Fed(Running(INITIAL, buffer, 0), [])
  {
  }

  /** What memcpy leaves in the buffer. */
  lemma CopiedIn(before: Bytes, after: Bytes, used: nat, part: Bytes)
    requires |before| == |after| == 64 && used + |part| <= 64
    requires forall i :: 0 <= i < used ==> after[i] == before[i]
    requires forall i :: 0 <= i < |part| ==> after[used + i] == part[i]
    ensures after[..used + |part|] == before[..used] + part
    ensures used + |part| == 64 ==> after == before[..used] + part
  {
    var whole := before[..used] + part;
    forall k | 0 <= k < used + |part| ensures after[k] == whole[k] {
      assert k >= used ==> after[used + (k - used)] == part[k - used];
    }
  }

  /** Filling the buffer without completing it. */
  lemma FedPart(r: Running, message: Bytes, part: Bytes, buffer: Bytes)
    requires Fed(r, message) && r.used + |part| < 64
    requires |buffer| == 64 && buffer[..r.used + |part|] == r.buffer[..r.used] + part
    ensures Fed(Running(r.hash, buffer, r.used + |part|), message + part)
  {
    hide HashBlocks;
    var whole := |message| - r.used;
    SumModulo(|message|, |part|);
    assert (message + part)[whole..] == message[whole..] + part;
    assert (message + part)[..whole] == message[..whole];
  }

  lemma SumModulo(m: nat, p: nat)
    requires m % 64 + p < 64
    ensures (m + p) % 64 == m % 64 + p
  {
  }

  lemma FullModulo(m: nat, p: nat)
    requires m % 64 + p == 64
    ensures (m + p) % 64 == 0
  {
  }

  /** Completing a block hashes it. */
  lemma FedBlock(r: Running, message: Bytes, part: Bytes, buffer: Bytes)
    requires Fed(r, message) && r.used + |part| == 64 && buffer == r.buffer[..r.used] + part
    ensures Fed(Running(Compress(r.hash, buffer), buffer, 0), message + part)
  {
    hide Compress;
    var whole := |message| - r.used;
    var more := message + part;
    FullModulo(|message|, |part|);
    assert more[..|more|] == more && buffer[..0] == more[|more|..];
    assert more[|more| - 64..] == message[whole..] + part;
    assert more[..|more| - 64] == message[..whole];
  }

  // ----- The object -----

  class Sha1 {
    var hash: Hash
    var length: nat
    const buffer: array<bv8>
    var used: nat

    function View(): Running
      reads this, buffer
    {
      Running(hash, buffer[..], used)
    }

    ghost predicate Holds(message: Bytes)
      reads this, buffer
    {
      Fed(View(), message) && length == |message| % LENGTH_WORD
    }

    constructor ()
      ensures Holds([]) && fresh(buffer)
    {
      buffer := new bv8[64](_ => 0);
      hash, length, used := INITIAL, 0, 0;
      new;
      FedNothing(buffer[..]);
    }

    method Reset()
      requires buffer.Length == 64
      modifies this
      ensures Holds([])
    {
      hash, length, used := INITIAL, 0, 0;
      FedNothing(buffer[..]);
    }

    /** The message schedule, filled in order. */
    method Schedule(data: Bytes) returns (words: array<bv32>)
      requires |data| == 64
      ensures fresh(words) && words.Length == 80
      ensures forall t :: 0 <= t < 80 ==> words[t] == W(data, t)
    {
      hide RotateLeft, WordAt, Mix;
      words := new bv32[80];
      var index := 0;
      while index < 16
        invariant 0 <= index <= 16
        invariant forall t :: 0 <= t < index ==> words[t] == W(data, t)
      {
        words[index] := WordAt(data, index);
        index := index + 1;
      }
      while index < 80
        invariant 16 <= index <= 80
        invariant forall t :: 0 <= t < index ==> words[t] == W(data, t)
      {
        words[index] := RotateLeft(Mix(words[index - 3], words[index - 8], words[index - 14], words[index - 16]), 1);
        index := index + 1;
      }
    }

    /** block(): the eighty rounds over local variables equal the recursive definition. */
    method Block()
      requires buffer.Length == 64
      modifies this`hash
      ensures hash == Compress(old(hash), buffer[..])
    {
      hide RotateLeft, W, F, CodeF, K, Sum5;
      var data := buffer[..];
      var words := Schedule(data);
      var a, b, c, d, e := hash.a, hash.b, hash.c, hash.d, hash.e;
      var index := 0;
      while index < 80
        invariant 0 <= index <= 80 && hash == old(hash)
        invariant Hash(a, b, c, d, e) == Rounds(hash, data, index)
        invariant forall t :: 0 <= t < 80 ==> words[t] == W(data, t)
      {
        var f := CodeF(index, b, c, d);
        CodeFIsF(index, b, c, d);
        var next := Sum5(RotateLeft(a, 5), f, e, K(index), words[index]);
        e := d;
        d := c;
        c := RotateLeft(b, 30);
        b := a;
        a := next;
        index := index + 1;
      }
      hash := AddHash(hash, Hash(a, b, c, d, e));
    }

    /** One turn of update's loop: memcpy into the buffer, and a block when it is full. */
    method Absorb(part: Bytes, ghost message: Bytes)
      requires Fed(View(), message) && 0 < |part| && used + |part| <= 64
      modifies this`hash, this`used, buffer
      ensures Fed(View(), message + part)
    {
      hide HashBlocks, Compress;
      ghost var r := View();
      forall i | 0 <= i < |part| {
        buffer[used + i] := part[i];
      }
      CopiedIn(r.buffer, buffer[..], used, part);
      if used + |part| == 64 {
        FedBlock(r, message, part, buffer[..]);
        Block();
        used := 0;
      } else {
        FedPart(r, message, part, buffer[..]);
        used := used + |part|;
      }
    }

    /** However a message is cut into pieces, the state is that of the whole message. */
    method Update(data: Bytes, ghost message: Bytes)
      requires Holds(message)
      modifies this, buffer
      ensures Holds(message + data)
    {
      hide Fed;
      LengthAdds(|message|, |data|);
      length := (length + |data|) % LENGTH_WORD;
      var at := 0;
      assert data[..0] == [] && message + [] == message;
      while at < |data|
        invariant 0 <= at <= |data| && Fed(View(), message + data[..at])
        invariant length == |message + data| % LENGTH_WORD
      {
        FedBounds(View(), message + data[..at]);
        var left := |data| - at;
        var part := if left < 64 - used then left else 64 - used;
        assert (message + data[..at]) + data[at..at + part] == message + data[..at + part];
        Absorb(data[at..at + part], message + data[..at]);
        at := at + part;
      }
      assert data[..at] == data;
    }

    /** finish(): the marker, zeros until the buffer holds 56 bytes, the length. The zero loop ends,
        and the digest is the SHA-1 of the message. */
    method Finish(ghost message: Bytes) returns (digest: Bytes)
      requires Holds(message)
      modifies this, buffer
      ensures digest == Sha1Of(message)
      ensures Holds([])
    {
      hide Fed, HashBlocks, BigEndian, DigestOf, Gap;
      FedBounds(View(), message);
      var bits := length * 8 % LENGTH_WORD;
      BitLength(|message|);
      Update([0x80], message);
      ghost var marked, k := message + [0x80], 0;
      assert Zeros(0) == [] && marked + [] == marked;
      FedBounds(View(), marked);
      GapBounds(|message|);
      while used != 56
        invariant 0 <= k <= Gap(|message|) && Holds(marked + Zeros(k)) && used == (|message| + 1 + k) % 64
        decreases Gap(|message|) - k
      {
        GapNotReached(|message|, k);
        assert (marked + Zeros(k)) + [0] == marked + Zeros(k + 1);
        Update([0], marked + Zeros(k));
        k := k + 1;
        FedBounds(View(), marked + Zeros(k));
      }
      GapReached(|message|, k);
      Update(BigEndian(bits, 8), marked + Zeros(k));
      assert (marked + Zeros(k)) + BigEndian(bits, 8) == Pad(message);
      FedWhole(View(), Pad(message));
      digest := DigestOf(hash);
      Reset();
    }
  }

  lemma LengthAdds(m: nat, d: nat)
    ensures (m % LENGTH_WORD + d) % LENGTH_WORD == (m + d) % LENGTH_WORD
  {
  }

  lemma BitLength(m: nat)
    ensures (m % LENGTH_WORD) * 8 % LENGTH_WORD == 8 * m % LENGTH_WORD
  {
    var q := m / LENGTH_WORD;
    assert 8 * m == (m % LENGTH_WORD) * 8 + 8 * q * LENGTH_WORD;
    MultipleDrops((m % LENGTH_WORD) * 8, 8 * q);
  }

  lemma MultipleDrops(x: nat, q: nat)
    ensures (x + q * LENGTH_WORD) % LENGTH_WORD == x % LENGTH_WORD
    decreases q
  {
    if q == 0 {
    } else {
      MultipleDrops(x, q - 1);
    }
  }

  lemma FedBounds(r: Running, message: Bytes)
    requires Fed(r, message)
    ensures |r.buffer| == 64 && r.used == |message| % 64
  {
  }

  lemma GapBounds(m: nat)
    ensures Gap(m) < 64 && (m + 1 + Gap(m)) % 64 == 56
  {
  }

  lemma GapNotReached(m: nat, k: nat)
    requires k <= Gap(m) && (m + 1 + k) % 64 != 56
    ensures k < Gap(m)
  {
  }

  lemma GapReached(m: nat, k: nat)
    requires k <= Gap(m) && (m + 1 + k) % 64 == 56
    ensures k == Gap(m)
  {
  }

  lemma FedWhole(r: Running, data: Bytes)
    requires Fed(r, data) && |data| % 64 == 0
    ensures r.hash == HashBlocks(data)
  {
    hide HashBlocks;
    assert r.used == 0;
    assert data[..|data| - r.used] == data;
  }

  // ----- Git objects -----

  function Text(s: string): (r: Bytes)
    requires forall i :: 0 <= i < |s| ==> s[i] < 128 as char
    ensures |r| == |s|
  {
    seq(|s|, i requires 0 <= i < |s| => (s[i] as int) as bv8)
  }

  function Decimal(n: nat): (r: string)
    ensures forall i :: 0 <= i < |r| ==> '0' <= r[i] <= '9'
  {
    if n < 10 then [(n + '0' as int) as char] else Decimal(n / 10) + [(n % 10 + '0' as int) as char]
  }

  /** "blob <length>" and a zero byte: what git hashes before the contents of a file. */
  function BlobHeader(size: nat): Bytes {
    Text("blob " + Decimal(size)) + [0]
  }

  method GitBlobBegin(sha: Sha1, size: nat)
    requires sha.buffer.Length == 64
    modifies sha, sha.buffer
    ensures sha.Holds(BlobHeader(size))
  {
    hide BlobHeader;
    sha.Reset();
    assert [] + BlobHeader(size) == BlobHeader(size);
    sha.Update(BlobHeader(size), []);
  }

  /** The name git gives a file, however its contents arrive. */
  method GitBlobDigest(sha: Sha1, pieces: seq<Bytes>, size: nat) returns (digest: Bytes)
    requires sha.buffer.Length == 64
    modifies sha, sha.buffer
    ensures digest == Sha1Of(BlobHeader(size) + Joined(pieces))
  {
    hide BlobHeader, Sha1Of, Joined, Fed;
    GitBlobBegin(sha, size);
    ghost var message := BlobHeader(size);
    var i := 0;
    NothingJoined(message, pieces);
    while i < |pieces|
      invariant 0 <= i <= |pieces| && sha.Holds(message + Joined(pieces[..i]))
    {
      PieceJoined(message, pieces, i);
      sha.Update(pieces[i], message + Joined(pieces[..i]));
      i := i + 1;
    }
    assert pieces[..i] == pieces;
    digest := sha.Finish(message + Joined(pieces));
  }

  lemma NothingJoined(message: Bytes, pieces: seq<Bytes>)
    ensures message + Joined(pieces[..0]) == message
  {
    assert pieces[..0] == [] && message + [] == message;
  }

  lemma PieceJoined(message: Bytes, pieces: seq<Bytes>, i: nat)
    requires i < |pieces|
    ensures (message + Joined(pieces[..i])) + pieces[i] == message + Joined(pieces[..i + 1])
  {
    assert pieces[..i + 1][..i] == pieces[..i];
    assert Joined(pieces[..i + 1]) == Joined(pieces[..i]) + pieces[i];
  }

  function Joined(pieces: seq<Bytes>): Bytes {
    if pieces == [] then [] else Joined(pieces[..|pieces| - 1]) + pieces[|pieces| - 1]
  }

  // ----- Hexadecimal digests -----

  function HexValue(digit: char): (v: int)
    ensures -1 <= v < 16
  {
    if '0' <= digit <= '9' then digit as int - '0' as int
    else if 'a' <= digit <= 'f' then digit as int - 'a' as int + 10
    else if 'A' <= digit <= 'F' then digit as int - 'A' as int + 10
    else -1
  }

  const DIGITS: string := "0123456789abcdef"
  const UPPER_DIGITS: string := "0123456789ABCDEF"

  /** The hexadecimal digits are these twenty-two characters, with the values of their places. */
  lemma HexValueIs(v: nat)
    requires v < 16
    ensures HexValue(DIGITS[v]) == v && HexValue(UPPER_DIGITS[v]) == v
  {
  }

  lemma HexValueIsOnly(digit: char)
    ensures HexValue(digit) >= 0 ==> digit == DIGITS[HexValue(digit)] || digit == UPPER_DIGITS[HexValue(digit)]
  {
  }

  /** Two digits of the text are byte k of the digest. */
  predicate PairAt(text: string, digest: Bytes, k: nat)
    requires k < |digest| && 2 * |digest| <= |text|
  {
    text[2 * k] == DIGITS[digest[k] as int / 16] && text[2 * k + 1] == DIGITS[digest[k] as int % 16]
  }

  function HexOf(digest: Bytes): (r: string)
    ensures |r| == 2 * |digest|
    ensures forall k :: 0 <= k < |digest| ==> PairAt(r, digest, k)
  {
    if digest == [] then ""
    else
      var last := digest[|digest| - 1] as int;
      var front := HexOf(digest[..|digest| - 1]);
      var r := front + [DIGITS[last / 16], DIGITS[last % 16]];
      assert forall k :: 0 <= k < |digest| - 1 ==> PairAt(front, digest[..|digest| - 1], k) && PairAt(r, digest, k);
      r
  }

  function CharAt(text: string, i: nat): char {
    if i < |text| then text[i] else '\0'
  }

  predicate IsHex(text: string, digits: nat) {
    forall i :: 0 <= i < digits ==> HexValue(CharAt(text, i)) >= 0
  }

  function ByteAt(text: string, k: nat): bv8
    requires HexValue(CharAt(text, 2 * k)) >= 0 && HexValue(CharAt(text, 2 * k + 1)) >= 0
  {
    (16 * HexValue(CharAt(text, 2 * k)) + HexValue(CharAt(text, 2 * k + 1))) as bv8
  }

  function BytesFrom(text: string, count: nat): (r: Bytes)
    requires IsHex(text, 2 * count)
    ensures |r| == count
    ensures forall k :: 0 <= k < count ==> r[k] == ByteAt(text, k)
  {
    seq(count, k requires 0 <= k < count => ByteAt(text, k))
  }

  /** parseSha1Hex: stops at the first character that is not a digit. */
  method ParseSha1Hex(text: string) returns (digest: Option<Bytes>)
    ensures digest == if IsHex(text, 40) then Some(BytesFrom(text, 20)) else None
  {
    var bytes: Bytes := [];
    var index := 0;
    while index < DIGEST_SIZE
      invariant 0 <= index <= 20 && IsHex(text, 2 * index) && bytes == BytesFrom(text, index)
    {
      var high := HexValue(CharAt(text, 2 * index));
      var low := if high < 0 then -1 else HexValue(CharAt(text, 2 * index + 1));
      if low < 0 {
        return None;
      }
      bytes := bytes + [(16 * high + low) as bv8];
      index := index + 1;
    }
    return Some(bytes);
  }

  method FormatSha1Hex(digest: Bytes, text: array<char>)
    requires |digest| == DIGEST_SIZE && text.Length == 41
    modifies text
    ensures text[..40] == HexOf(digest) && text[40] == '\0'
  {
    var index := 0;
    while index < DIGEST_SIZE
      invariant 0 <= index <= 20
      invariant forall k :: 0 <= k < index ==> PairAt(text[..40], digest, k)
    {
      ghost var before := text[..40];
      text[2 * index] := DIGITS[digest[index] as int / 16];
      text[2 * index + 1] := DIGITS[digest[index] as int % 16];
      OnePairMore(before, text[..40], digest, index);
      index := index + 1;
    }
    text[40] := '\0';
    HexIsPairs(text[..40], digest);
  }

  lemma OnePairMore(before: string, after: string, digest: Bytes, index: nat)
    requires |before| == |after| == 40 && |digest| == DIGEST_SIZE && index < DIGEST_SIZE
    requires forall i :: 0 <= i < 2 * index ==> after[i] == before[i]
    requires forall k :: 0 <= k < index ==> PairAt(before, digest, k)
    requires PairAt(after, digest, index)
    ensures forall k :: 0 <= k <= index ==> PairAt(after, digest, k)
  {
    forall k | 0 <= k < index ensures PairAt(after, digest, k) {
      assert PairAt(before, digest, k) && after[2 * k] == before[2 * k] && after[2 * k + 1] == before[2 * k + 1];
    }
  }

  lemma HexIsPairs(text: string, digest: Bytes)
    requires |text| == 2 * |digest|
    requires forall k :: 0 <= k < |digest| ==> PairAt(text, digest, k)
    ensures text == HexOf(digest)
  {
    hide HexOf;
    forall i | 0 <= i < |text| ensures text[i] == HexOf(digest)[i] {
      var k := i / 2;
      assert PairAt(text, digest, k) && PairAt(HexOf(digest), digest, k);
      assert i == 2 * k || i == 2 * k + 1;
    }
  }

  /** Parsing the formatted digits returns the digest, whatever follows them. */
  lemma ParseUndoesFormat(digest: Bytes, rest: string)
    requires |digest| == DIGEST_SIZE
    ensures IsHex(HexOf(digest) + rest, 40) && BytesFrom(HexOf(digest) + rest, 20) == digest
  {
    hide HexOf, HexValue;
    var text := HexOf(digest) + rest;
    forall i | 0 <= i < 40 ensures HexValue(CharAt(text, i)) >= 0 {
      PairValues(text, digest, i / 2);
      assert i == 2 * (i / 2) || i == 2 * (i / 2) + 1;
    }
    forall k | 0 <= k < 20 ensures BytesFrom(text, 20)[k] == digest[k] {
      PairValues(text, digest, k);
      ByteOfInt(digest[k]);
    }
  }

  lemma PairValues(text: string, digest: Bytes, k: nat)
    requires k < |digest| && 2 * |digest| <= |text| && text[..2 * |digest|] == HexOf(digest)
    ensures HexValue(CharAt(text, 2 * k)) == digest[k] as int / 16
    ensures HexValue(CharAt(text, 2 * k + 1)) == digest[k] as int % 16
    ensures 16 * (digest[k] as int / 16) + digest[k] as int % 16 == digest[k] as int
  {
    hide HexOf, HexValue;
    assert PairAt(HexOf(digest), digest, k);
    assert text[2 * k] == HexOf(digest)[2 * k] && text[2 * k + 1] == HexOf(digest)[2 * k + 1];
    HexValueIs(digest[k] as int / 16);
    HexValueIs(digest[k] as int % 16);
  }

  function Lower(c: char): char {
    if 'A' <= c <= 'F' then (c as int + 32) as char else c
  }

  lemma ValueDigit(c: char)
    requires HexValue(c) >= 0
    ensures DIGITS[HexValue(c)] == Lower(c)
  {
  }

  /** Formatting what was parsed returns the digits in lower case. */
  lemma FormatUndoesParse(text: string)
    requires IsHex(text, 40)
    ensures |text| >= 40
    ensures forall i :: 0 <= i < 40 ==> HexOf(BytesFrom(text, 20))[i] == Lower(text[i])
  {
    hide HexOf, HexValue, BytesFrom;
    assert HexValue(CharAt(text, 39)) >= 0;
    NulIsNotHex();
    forall i | 0 <= i < 40 ensures HexOf(BytesFrom(text, 20))[i] == Lower(text[i]) {
      PairLower(text, i / 2);
      assert i == 2 * (i / 2) || i == 2 * (i / 2) + 1;
    }
  }

  lemma PairLower(text: string, k: nat)
    requires IsHex(text, 40) && |text| >= 40 && k < 20
    ensures HexOf(BytesFrom(text, 20))[2 * k] == Lower(text[2 * k])
    ensures HexOf(BytesFrom(text, 20))[2 * k + 1] == Lower(text[2 * k + 1])
  {
    hide HexOf, HexValue, BytesFrom;
    assert PairAt(HexOf(BytesFrom(text, 20)), BytesFrom(text, 20), k);
    var high, low := HexValue(CharAt(text, 2 * k)), HexValue(CharAt(text, 2 * k + 1));
    IntOfByte(16 * high + low);
    NibblesOf(high, low);
    ValueDigit(text[2 * k]);
    ValueDigit(text[2 * k + 1]);
  }

  lemma NibblesOf(high: nat, low: nat)
    requires high < 16 && low < 16
    ensures (16 * high + low) / 16 == high && (16 * high + low) % 16 == low
  {
  }

  lemma NulIsNotHex()
    ensures HexValue('\0') == -1
  {
  }
}
