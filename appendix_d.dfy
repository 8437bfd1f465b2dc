/** The published HOTP test values of Appendix D of RFC 4226 (secret
    "12345678901234567890", counts 0 to 9), run through the truncation. */
module AppendixD {
  import opened Numeric
  import opened Otp

  const Count0Digest: Digest := [0xcc, 0x93, 0xcf, 0x18, 0x50, 0x8d, 0x94, 0x93, 0x4c, 0x64, 0xb6, 0x5d, 0x8b, 0xa7, 0x66, 0x7f, 0xb7, 0xcd, 0xe4, 0xb0]
  const Count1Digest: Digest := [0x75, 0xa4, 0x8a, 0x19, 0xd4, 0xcb, 0xe1, 0x00, 0x64, 0x4e, 0x8a, 0xc1, 0x39, 0x7e, 0xea, 0x74, 0x7a, 0x2d, 0x33, 0xab]
  const Count2Digest: Digest := [0x0b, 0xac, 0xb7, 0xfa, 0x08, 0x2f, 0xef, 0x30, 0x78, 0x22, 0x11, 0x93, 0x8b, 0xc1, 0xc5, 0xe7, 0x04, 0x16, 0xff, 0x44]
  const Count3Digest: Digest := [0x66, 0xc2, 0x82, 0x27, 0xd0, 0x3a, 0x2d, 0x55, 0x29, 0x26, 0x2f, 0xf0, 0x16, 0xa1, 0xe6, 0xef, 0x76, 0x55, 0x7e, 0xce]
  const Count4Digest: Digest := [0xa9, 0x04, 0xc9, 0x00, 0xa6, 0x4b, 0x35, 0x90, 0x98, 0x74, 0xb3, 0x3e, 0x61, 0xc5, 0x93, 0x8a, 0x8e, 0x15, 0xed, 0x1c]
  const Count5Digest: Digest := [0xa3, 0x7e, 0x78, 0x3d, 0x7b, 0x72, 0x33, 0xc0, 0x83, 0xd4, 0xf6, 0x29, 0x26, 0xc7, 0xa2, 0x5f, 0x23, 0x8d, 0x03, 0x16]
  const Count6Digest: Digest := [0xbc, 0x9c, 0xd2, 0x85, 0x61, 0x04, 0x2c, 0x83, 0xf2, 0x19, 0x32, 0x4d, 0x3c, 0x60, 0x72, 0x56, 0xc0, 0x32, 0x72, 0xae]
  const Count7Digest: Digest := [0xa4, 0xfb, 0x96, 0x0c, 0x0b, 0xc0, 0x6e, 0x1e, 0xab, 0xb8, 0x04, 0xe5, 0xb3, 0x97, 0xcd, 0xc4, 0xb4, 0x55, 0x96, 0xfa]
  const Count8Digest: Digest := [0x1b, 0x3c, 0x89, 0xf6, 0x5e, 0x6c, 0x9e, 0x88, 0x30, 0x12, 0x05, 0x28, 0x23, 0x44, 0x3f, 0x04, 0x8b, 0x43, 0x32, 0xdb]
  const Count9Digest: Digest := [0x16, 0x37, 0x40, 0x98, 0x09, 0xa6, 0x79, 0xdc, 0x69, 0x82, 0x07, 0x31, 0x0c, 0x8c, 0x7f, 0xc0, 0x72, 0x90, 0xd9, 0xe5]

  /** Count 0: offset 0, Snum 1284755224, HOTP 755224. */
  lemma AppendixDCount0()
    ensures TruncatedNumber(Count0Digest) == 1284755224
    ensures Code(Count0Digest) == 755224
  {
    var d := Count0Digest;
    assert Offset(d) == 0;
    assert d[0..4] == [0xcc, 0x93, 0xcf, 0x18];
    BigEndian4(d[0..4]);
    assert ValueOf(d[0..4], 256) == 3432238872;
  }

  /** Count 1: offset 11, Snum 1094287082, HOTP 287082. */
  lemma AppendixDCount1()
    ensures TruncatedNumber(Count1Digest) == 1094287082
    ensures Code(Count1Digest) == 287082
  {
    var d := Count1Digest;
    assert Offset(d) == 11;
    assert d[11..15] == [0xc1, 0x39, 0x7e, 0xea];
    BigEndian4(d[11..15]);
    assert ValueOf(d[11..15], 256) == 3241770730;
  }

  /** Count 2: offset 4, Snum 137359152, HOTP 359152. */
  lemma AppendixDCount2()
    ensures TruncatedNumber(Count2Digest) == 137359152
    ensures Code(Count2Digest) == 359152
  {
    var d := Count2Digest;
    assert Offset(d) == 4;
    assert d[4..8] == [0x08, 0x2f, 0xef, 0x30];
    BigEndian4(d[4..8]);
    assert ValueOf(d[4..8], 256) == 137359152;
  }

  /** Count 3: offset 14, Snum 1726969429, HOTP 969429. */
  lemma AppendixDCount3()
    ensures TruncatedNumber(Count3Digest) == 1726969429
    ensures Code(Count3Digest) == 969429
  {
    var d := Count3Digest;
    assert Offset(d) == 14;
    assert d[14..18] == [0xe6, 0xef, 0x76, 0x55];
    BigEndian4(d[14..18]);
    assert ValueOf(d[14..18], 256) == 3874453077;
  }

  /** Count 4: offset 12, Snum 1640338314, HOTP 338314. */
  lemma AppendixDCount4()
    ensures TruncatedNumber(Count4Digest) == 1640338314
    ensures Code(Count4Digest) == 338314
  {
    var d := Count4Digest;
    assert Offset(d) == 12;
    assert d[12..16] == [0x61, 0xc5, 0x93, 0x8a];
    BigEndian4(d[12..16]);
    assert ValueOf(d[12..16], 256) == 1640338314;
  }

  /** Count 5: offset 6, Snum 868254676, HOTP 254676. */
  lemma AppendixDCount5()
    ensures TruncatedNumber(Count5Digest) == 868254676
    ensures Code(Count5Digest) == 254676
  {
    var d := Count5Digest;
    assert Offset(d) == 6;
    assert d[6..10] == [0x33, 0xc0, 0x83, 0xd4];
    BigEndian4(d[6..10]);
    assert ValueOf(d[6..10], 256) == 868254676;
  }

  /** Count 6: offset 14, Snum 1918287922, HOTP 287922. */
  lemma AppendixDCount6()
    ensures TruncatedNumber(Count6Digest) == 1918287922
    ensures Code(Count6Digest) == 287922
  {
    var d := Count6Digest;
    assert Offset(d) == 14;
    assert d[14..18] == [0x72, 0x56, 0xc0, 0x32];
    BigEndian4(d[14..18]);
    assert ValueOf(d[14..18], 256) == 1918287922;
  }

  /** Count 7: offset 10, Snum 82162583, HOTP 162583. */
  lemma AppendixDCount7()
    ensures TruncatedNumber(Count7Digest) == 82162583
    ensures Code(Count7Digest) == 162583
  {
    var d := Count7Digest;
    assert Offset(d) == 10;
    assert d[10..14] == [0x04, 0xe5, 0xb3, 0x97];
    BigEndian4(d[10..14]);
    assert ValueOf(d[10..14], 256) == 82162583;
  }

  /** Count 8: offset 11, Snum 673399871, HOTP 399871. */
  lemma AppendixDCount8()
    ensures TruncatedNumber(Count8Digest) == 673399871
    ensures Code(Count8Digest) == 399871
  {
    var d := Count8Digest;
    assert Offset(d) == 11;
    assert d[11..15] == [0x28, 0x23, 0x44, 0x3f];
    BigEndian4(d[11..15]);
    assert ValueOf(d[11..15], 256) == 673399871;
  }

  /** Count 9: offset 5, Snum 645520489, HOTP 520489. */
  lemma AppendixDCount9()
    ensures TruncatedNumber(Count9Digest) == 645520489
    ensures Code(Count9Digest) == 520489
  {
    var d := Count9Digest;
    assert Offset(d) == 5;
    assert d[5..9] == [0xa6, 0x79, 0xdc, 0x69];
    BigEndian4(d[5..9]);
    assert ValueOf(d[5..9], 256) == 2793004137;
  }
}
