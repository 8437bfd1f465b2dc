/** The one-time-password core of main.go: the counter message, the HMAC
    digest and the dynamic truncation of section 5.3 of RFC 4226. */
module Otp {
  import opened Numeric

  /** A code has six decimal digits: it is reduced modulo 10^6. */
  const CodeModulus: nat := 1000000

  /** The 20 bytes of an HMAC-SHA1 digest. */
  type Digest = s: seq<byte> | |s| == 20 witness seq(20, i => 0)

  /** HMAC-SHA1 keyed by the first argument over the message in the second.
      Its internals are not part of this model: all it promises is a digest. */
  type Hmac = (seq<byte>, seq<byte>) -> Digest

  /** The counter message C of section 5.1 of RFC 4226: eight bytes, most
      significant first. A negative int64 gives its two's-complement bytes. */
  function CounterBytes(value: int): (r: seq<byte>)
    ensures |r| == 8
  {
    DigitsOf(value, 256, 8)
  }

  /** 2^64, the number of distinct counter messages. */
  const TwoTo64: nat := 0x1_0000_0000_0000_0000

  /** The counter message denotes the counter modulo 2^64, so a non-negative
      int64 counter is recovered exactly. */
  lemma CounterBytesValue(value: int)
    ensures ValueOf(CounterBytes(value), 256) == value % TwoTo64
    ensures 0 <= value < TwoTo64 / 2 ==> ValueOf(CounterBytes(value), 256) == value
  {
    ValueOfDigitsOf(value, 256, 8);
    assert Pow(2, 8) == 256;
    PowPow(2, 8, 8);
    assert Pow(2, 64) == TwoTo64 by {
      PowPow(2, 8, 8);
      assert Pow(256, 8) == TwoTo64;
    }
    if 0 <= value < TwoTo64 / 2 {
      ModOfSmaller(value, TwoTo64);
    }
  }

  /** `toBytes`: one byte per shift 56, 48, ..., 0, each `(value >> shift) & 0xFF`. */
  method ToBytes(value: int) returns (result: seq<byte>)
    ensures result == CounterBytes(value)
    ensures |result| == 8 && ValueOf(result, 256) == value % TwoTo64
  {
    var shifts := [56, 48, 40, 32, 24, 16, 8, 0];
    assert forall k :: 0 <= k < |shifts| ==> shifts[k] == 56 - 8 * k;
    result := [];
    for i := 0 to |shifts|
      invariant result == CounterBytes(value)[..i]
    {
      var shift := shifts[i];
      // An arithmetic right shift is floor division; masking with 0xFF is
      // the Euclidean remainder modulo 256.
      var shifted := value / Pow(2, shift);
      var b: byte := shifted % 256;
      ToBytesStep(value, i, b);
      result := result + [b];
    }
    assert CounterBytes(value)[..8] == CounterBytes(value);
    CounterBytesValue(value);
  }

  /** The byte taken at step `i` extends the prefix built so far. */
  lemma ToBytesStep(value: int, i: nat, b: int)
    requires i < 8 && b == value / Pow(2, 56 - 8 * i) % 256
    ensures CounterBytes(value)[..i + 1] == CounterBytes(value)[..i] + [b]
  {
    CounterByteAt(value, i);
    TakeOneMore(CounterBytes(value), i);
  }

  /** Byte `i` of the counter message is the counter shifted right by
      56 - 8i bits, modulo 256: the byte `toBytes` takes at that shift. */
  lemma CounterByteAt(value: int, i: nat)
    requires i < 8
    ensures CounterBytes(value)[i] == value / Pow(2, 56 - 8 * i) % 256
  {
    DigitsOfAt(value, 256, 8, i);
    assert Pow(2, 8) == 256;
    PowPow(2, 8, 7 - i);
  }

  /** Four bytes read big-endian, written out. */
  lemma BigEndian4(w: seq<byte>)
    requires |w| == 4
    ensures ValueOf(w, 256) == (w[0] as int) * 0x100_0000 + (w[1] as int) * 0x1_0000 + (w[2] as int) * 0x100 + w[3] as int
  {
    assert w[..3][..2] == w[..2] && w[..2][..1] == w[..1] && w[..1][..0] == [];
    calc {
      ValueOf(w, 256);
      ValueOf(w[..3], 256) * 256 + w[3];
      (ValueOf(w[..2], 256) * 256 + w[2]) * 256 + w[3];
      ((ValueOf(w[..1], 256) * 256 + w[1]) * 256 + w[2]) * 256 + w[3];
      ((w[0] as int * 256 + w[1]) * 256 + w[2]) * 256 + w[3];
    }
  }

  /** `toUint32`: the first four bytes read as a big-endian unsigned number. */
  function ToUint32(bytes: seq<byte>): (r: nat)
    requires |bytes| >= 4
    ensures r == ValueOf(bytes[..4], 256)
    ensures r < 0x1_0000_0000
  {
    BigEndian4(bytes[..4]);
    (bytes[0] as int) * 0x100_0000 + (bytes[1] as int) * 0x1_0000 + (bytes[2] as int) * 0x100 + bytes[3] as int
  }

  /** Masking an octet with 2^k - 1 keeps its k low bits: `x & 0x0F` is
      `x % 16` and `x & 0x7F` is `x % 128`. The functions below compute the
      masks of main.go in this remainder form. */
  lemma LowMasks(x: bv8)
    ensures x & 0x7F == x % 128
    ensures x & 0x0F == x % 16
  {
  }

  /** `b & 0x0F`: the low nibble of a byte. */
  function LowNibble(b: byte): (r: nat)
    ensures r <= 15
  {
    b % 16
  }

  /** `b & 0x7F`: the byte with its most significant bit cleared. */
  function ClearTopBit(b: byte): (r: byte)
    ensures r < 128
  {
    b % 128
  }

  /** The start of the 4-byte window: the low nibble of the last digest byte.
      At most 15, so the window ends by byte 19 of the 20. */
  function Offset(hash: Digest): (offset: nat)
    ensures offset <= 15 && offset + 4 <= |hash|
    ensures offset == hash[19] % 16
  {
    LowNibble(hash[|hash| - 1])
  }

  /** The digest after `hashParts[0] &= 0x7F`: the window aliases the
      digest, so the write clears bit 7 of `hash[offset]` and nothing else. */
  function Masked(hash: Digest, offset: nat): (m: Digest)
    requires offset < |hash|
    ensures m[offset] < 128 && m[offset] == hash[offset] % 128
    ensures forall i :: 0 <= i < |hash| && i != offset ==> m[i] == hash[i]
  {
    hash[offset := ClearTopBit(hash[offset])]
  }

  lemma ClearTopByteBit(w: seq<byte>)
    requires |w| == 4
    ensures ValueOf([w[0] % 128] + w[1..], 256) == ValueOf(w, 256) % 0x8000_0000
  {
    var m := [w[0] % 128] + w[1..];
    var rest := (w[1] as int) * 0x1_0000 + (w[2] as int) * 0x100 + w[3] as int;
    BigEndian4(m);
    BigEndian4(w);
    var top: int := w[0];
    assert top * 0x100_0000 == (top / 128) * 0x8000_0000 + (top % 128) * 0x100_0000;
    DivModUnique(ValueOf(w, 256), 0x8000_0000, w[0] / 128, (w[0] % 128) * 0x100_0000 + rest);
  }

  /** Snum of section 5.3 of RFC 4226: the masked window read big-endian,
      which is the last 31 bits of the unmasked window. */
  function TruncatedNumber(hash: Digest): (snum: nat)
    ensures snum < 0x8000_0000
    ensures snum == ValueOf(hash[Offset(hash)..Offset(hash) + 4], 256) % 0x8000_0000
  {
    var offset := Offset(hash);
    var window := Masked(hash, offset)[offset..offset + 4];
    var w := hash[offset..offset + 4];
    assert window == [w[0] % 128] + w[1..] && window[..4] == window;
    ClearTopByteBit(w);
    ToUint32(window)
  }

  /** The six-digit code a digest yields. */
  function Code(hash: Digest): (code: nat)
    ensures code < CodeModulus
    ensures code == ValueOf(hash[Offset(hash)..Offset(hash) + 4], 256) % 0x8000_0000 % 1000000
  {
    TruncatedNumber(hash) % CodeModulus
  }

  /** `oneTimePassword`: the code of HMAC-SHA1(key, value). The digest is a
      buffer the masking writes into through the window that aliases it. */
  method OneTimePassword(key: seq<byte>, value: seq<byte>, hmac: Hmac) returns (pwd: nat)
    ensures pwd == Code(hmac(key, value))
    ensures pwd < CodeModulus
  {
    var digest := hmac(key, value);
    var hash := new byte[|digest|](i requires 0 <= i < |digest| => digest[i]);
    var offset := LowNibble(hash[hash.Length - 1]);
    // hashParts := hash[offset : offset+4]; hashParts[0] &= 0x7F
    hash[offset] := ClearTopBit(hash[offset]);
    assert hash[..] == Masked(digest, offset);
    var number := ToUint32(hash[offset..offset + 4]);
    assert hash[offset..offset + 4] == Masked(digest, offset)[offset..offset + 4];
    pwd := number % CodeModulus;
  }
}
