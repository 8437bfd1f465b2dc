/** Secret decoding: the listing commands remove every space from the stored
    secret, upper-case it and decode it as unpadded base32 (the alphabet of
    section 6 of RFC 4648, without the `=` padding). */
module Base32 {
  import opened Numeric
  import opened Wrappers

  /** Why a cleaned secret is not unpadded base32. */
  datatype DecodeError =
    | IllegalSymbol(index: nat)   // the first character outside the alphabet
    | IllegalLength(length: nat)  // a final group of 1, 3 or 6 characters

  /** Table 3 of RFC 4648, as a string. */
  const Alphabet: string := "ABCDEFGHIJKLMNOPQRSTUVWXYZ234567"

  /** The character that encodes the 5-bit value `v`. */
  function Symbol(v: nat): (c: char)
    requires v < 32
    ensures c == Alphabet[v]
  {
    if v < 26 then ('A' as int + v) as char else ('2' as int + v - 26) as char
  }

  /** Membership in the alphabet, by character ranges. */
  predicate IsSymbol(c: char)
  {
    'A' <= c <= 'Z' || '2' <= c <= '7'
  }

  lemma SymbolsAreAlphabet(c: char)
    ensures IsSymbol(c) <==> c in Alphabet
  {
    if c in Alphabet {
      var v :| 0 <= v < 32 && Alphabet[v] == c;
      assert Symbol(v) == c;
    }
  }

  /** The 5-bit value a character encodes, if it is in the alphabet. */
  function SymbolValue(c: char): (r: Option<nat>)
    ensures r.Some? ==> r.value < 32 && Symbol(r.value) == c
    ensures r.Some? <==> IsSymbol(c)
  {
    if 'A' <= c <= 'Z' then Some(c as int - 'A' as int)
    else if '2' <= c <= '7' then Some(c as int - '2' as int + 26)
    else None
  }

  // ---------------------------------------------------------------------
  // Cleaning: strings.Replace(input, " ", "", -1), then strings.ToUpper.

  /** Every space of `s` removed, the other characters kept in order. */
  function RemoveSpaces(s: string): (r: string)
    ensures |r| <= |s|
    ensures forall i :: 0 <= i < |r| ==> r[i] != ' '
    ensures forall c :: c != ' ' ==> multiset(r)[c] == multiset(s)[c]
  {
    if s == [] then []
    else
      var rest := RemoveSpaces(s[1..]);
      assert s == [s[0]] + s[1..];
      if s[0] == ' ' then rest else [s[0]] + rest
  }

  /** Removing spaces keeps the order of what remains. */
  lemma {:induction false} RemoveSpacesAppend(a: string, b: string)
    ensures RemoveSpaces(a + b) == RemoveSpaces(a) + RemoveSpaces(b)
  {
    if a != [] {
      assert (a + b)[1..] == a[1..] + b;
      RemoveSpacesAppend(a[1..], b);
    } else {
      assert a + b == b;
    }
  }

  /** A string without spaces is left as it is. */
  lemma {:induction false} RemoveSpacesNone(s: string)
    requires forall i :: 0 <= i < |s| ==> s[i] != ' '
    ensures RemoveSpaces(s) == s
  {
    if s != [] {
      RemoveSpacesNone(s[1..]);
    }
  }

  function UpperChar(c: char): char
  {
    if 'a' <= c <= 'z' then (c as int - 32) as char else c
  }

  /** ASCII upper-casing: each of `a`..`z` becomes its capital, nothing else changes. */
  function ToUpper(s: string): (r: string)
    ensures |r| == |s|
    ensures forall i :: 0 <= i < |r| ==> !('a' <= r[i] <= 'z')
    ensures forall i :: 0 <= i < |s| && 'a' <= s[i] <= 'z' ==> r[i] as int == s[i] as int - 32
    ensures forall i :: 0 <= i < |s| && !('a' <= s[i] <= 'z') ==> r[i] == s[i]
  {
    seq(|s|, i requires 0 <= i < |s| => UpperChar(s[i]))
  }

  /** The secret as the decoder sees it: no spaces, no lower-case letters. */
  function Clean(secret: string): (r: string)
    ensures |r| <= |secret|
    ensures forall i :: 0 <= i < |r| ==> r[i] != ' ' && !('a' <= r[i] <= 'z')
  {
    ToUpper(RemoveSpaces(secret))
  }

  /** Cleaning twice is cleaning once. */
  lemma CleanIdempotent(secret: string)
    ensures Clean(Clean(secret)) == Clean(secret)
  {
    var c := Clean(secret);
    RemoveSpacesNone(c);
  }

  // ---------------------------------------------------------------------
  // Unpadded base32: groups of 8 symbols carry 5 bytes; a final group of
  // 2, 4, 5 or 7 symbols carries 1, 2, 3 or 4 bytes, its low bits padding.

  /** The symbol counts a padding-free encoding can have under section 6 of
      RFC 4648: no number of bytes encodes to a final group of 1, 3 or 6. */
  predicate ValidLength(n: nat)
  {
    var r := n % 8;
    r == 0 || r == 2 || r == 4 || r == 5 || r == 7
  }

  /** The symbol counts of one group: a whole group of 8, or a final group. */
  predicate GroupLength(n: nat)
  {
    n == 2 || n == 4 || n == 5 || n == 7 || n == 8
  }

  /** Symbols needed for a final group of `k` bytes: ceil(8k/5). */
  function SymbolsFor(k: nat): nat
  {
    (8 * k + 4) / 5
  }

  /** Bytes carried by a final group of `n` symbols: floor(5n/8). */
  function BytesFor(n: nat): nat
  {
    5 * n / 8
  }

  /** Encoding `m` bytes gives a length the decoder accepts, and decoding
      that many symbols gives `m` bytes back. */
  lemma EncodedLengthValid(m: nat)
    ensures ValidLength(8 * (m / 5) + SymbolsFor(m % 5))
    ensures 5 * ((8 * (m / 5) + SymbolsFor(m % 5)) / 8) + BytesFor((8 * (m / 5) + SymbolsFor(m % 5)) % 8) == m
  {
    var q, r := m / 5, m % 5;
    var x := SymbolsFor(r);
    assert x < 8 && BytesFor(x) == r by {
      if r == 0 {} else if r == 1 {} else if r == 2 {} else if r == 3 {} else {}
    }
    DivModUnique(8 * q + x, 8, q, x);
  }

  /** The values of the symbols of `s`, or the position of the first
      character outside the alphabet. */
  function SymbolValues(s: string): (r: Result<seq<nat>, DecodeError>)
    ensures r.Success? ==> |r.value| == |s| && forall i :: 0 <= i < |s| ==> r.value[i] < 32 && Symbol(r.value[i]) == s[i]
    ensures r.Failure? ==>
      && r.error.IllegalSymbol? && r.error.index < |s| && !IsSymbol(s[r.error.index])
      && forall i :: 0 <= i < r.error.index ==> IsSymbol(s[i])
    ensures r.Success? <==> forall i :: 0 <= i < |s| ==> IsSymbol(s[i])
  {
    if s == [] then Success([])
    else
      var n := |s|;
      match SymbolValues(s[..n - 1])
      case Failure(e) => Failure(e)
      case Success(vs) =>
        match SymbolValue(s[n - 1])
        case None => Failure(IllegalSymbol(n - 1))
        case Some(v) => Success(vs + [v])
  }

  function DecodeGroup(vs: seq<nat>): (g: seq<byte>)
    requires GroupLength(|vs|)
    requires forall i :: 0 <= i < |vs| ==> vs[i] < 32
    ensures |g| == BytesFor(|vs|)
  {
    var n := |vs|;
    var k := BytesFor(n);
    DigitsOf(ValueOf(vs, 32) / Pow(2, 5 * n - 8 * k), 256, k)
  }

  function DecodeValues(vs: seq<nat>): (bs: seq<byte>)
    requires ValidLength(|vs|)
    requires forall i :: 0 <= i < |vs| ==> vs[i] < 32
    ensures |bs| == 5 * (|vs| / 8) + BytesFor(|vs| % 8)
    decreases |vs|
  {
    if |vs| == 0 then []
    else if |vs| >= 8 then DecodeGroup(vs[..8]) + DecodeValues(vs[8..])
    else DecodeGroup(vs)
  }

  /** Unpadded base32 decoding; bits below the last whole byte are ignored. */
  function Decode(s: string): (r: Result<seq<byte>, DecodeError>)
    ensures r.Success? <==> ValidLength(|s|) && forall i :: 0 <= i < |s| ==> IsSymbol(s[i])
    ensures r.Success? ==> |r.value| == 5 * (|s| / 8) + BytesFor(|s| % 8)
  {
    match SymbolValues(s)
    case Failure(e) => Failure(e)
    case Success(vs) =>
      if ValidLength(|s|) then Success(DecodeValues(vs)) else Failure(IllegalLength(|s|))
  }

  function EncodeGroup(g: seq<byte>): (vs: seq<nat>)
    requires 1 <= |g| <= 5
    ensures |vs| == SymbolsFor(|g|)
    ensures forall i :: 0 <= i < |vs| ==> vs[i] < 32
  {
    var k := |g|;
    var n := SymbolsFor(k);
    DigitsOf(ValueOf(g, 256) * Pow(2, 5 * n - 8 * k), 32, n)
  }

  function EncodeValues(bs: seq<byte>): (vs: seq<nat>)
    ensures |vs| == 8 * (|bs| / 5) + SymbolsFor(|bs| % 5)
    ensures forall i :: 0 <= i < |vs| ==> vs[i] < 32
    decreases |bs|
  {
    if |bs| == 0 then []
    else if |bs| > 5 then EncodeGroup(bs[..5]) + EncodeValues(bs[5..])
    else EncodeGroup(bs)
  }

  /** The characters encoding the 5-bit values `vs`. */
  function Symbols(vs: seq<nat>): (s: string)
    requires forall i :: 0 <= i < |vs| ==> vs[i] < 32
    ensures |s| == |vs|
    ensures forall i :: 0 <= i < |vs| ==> s[i] == Symbol(vs[i]) && IsSymbol(s[i])
  {
    seq(|vs|, i requires 0 <= i < |vs| => Symbol(vs[i]))
  }

  /** Unpadded base32 encoding, the inverse the decoder is checked against. */
  function Encode(bs: seq<byte>): (s: string)
    ensures ValidLength(|s|)
    ensures forall i :: 0 <= i < |s| ==> IsSymbol(s[i])
  {
    EncodeValuesLength(bs);
    Symbols(EncodeValues(bs))
  }

  // ---------------------------------------------------------------------
  // The decoder inverts the encoder.

  /** Shifting `v` left by `pad` bits and back through `n` base-32 digits
      restores it, when the digits have room for all 8k + pad bits. */
  lemma PaddedDigits(v: nat, k: nat, pad: nat, n: nat)
    requires v < Pow(256, k) && 5 * n == 8 * k + pad
    ensures ValueOf(DigitsOf(v * Pow(2, pad), 32, n), 32) / Pow(2, pad) == v
  {
    var unit := Pow(2, pad);
    var big := v * unit;
    assert Pow(2, 8) == 256 && Pow(2, 5) == 32;
    PowPow(2, 8, k);
    PowPow(2, 5, n);
    PowAdd(2, 8 * k, pad);
    assert Pow(32, n) == Pow(256, k) * unit;
    assert big < Pow(32, n) by {
      MulStrict(v, Pow(256, k), unit);
    }
    ValueOfDigitsOf(big, 32, n);
    ModOfSmaller(big, Pow(32, n));
    DivModUnique(big, unit, v, 0);
  }

  lemma MulStrict(a: nat, b: nat, c: nat)
    requires a < b && c > 0
    ensures a * c < b * c
  {
  }

  /** One group: the padding bits added by the encoder are the bits the
      decoder drops. */
  lemma GroupRoundTrip(g: seq<byte>)
    requires 1 <= |g| <= 5
    ensures DecodeGroup(EncodeGroup(g)) == g
  {
    var k := |g|;
    var n := SymbolsFor(k);
    assert BytesFor(n) == k && 8 * k <= 5 * n by {
      if k == 1 {} else if k == 2 {} else if k == 3 {} else if k == 4 {} else {}
    }
    var pad := 5 * n - 8 * k;
    ValueOfBound(g, 256);
    PaddedDigits(ValueOf(g, 256), k, pad, n);
    DigitsOfValueOf(g, 256);
  }

  /** The encoder produces only lengths the decoder accepts. */
  lemma EncodeValuesLength(bs: seq<byte>)
    ensures ValidLength(|EncodeValues(bs)|)
  {
    var m := |bs|;
    EncodedLengthValid(m);
    assert |EncodeValues(bs)| == 8 * (m / 5) + SymbolsFor(m % 5);
  }

  /** A whole group of eight symbols in front decodes on its own. */
  lemma DecodeValuesAppend(head: seq<nat>, tail: seq<nat>)
    requires |head| == 8 && ValidLength(|tail|)
    requires forall i :: 0 <= i < |head| ==> head[i] < 32
    requires forall i :: 0 <= i < |tail| ==> tail[i] < 32
    ensures ValidLength(|head + tail|)
    ensures DecodeValues(head + tail) == DecodeGroup(head) + DecodeValues(tail)
  {
    var vs := head + tail;
    assert vs[..8] == head && vs[8..] == tail;
  }

  /** A short input is one group. */
  lemma ShortValuesRoundTrip(bs: seq<byte>)
    requires 0 < |bs| <= 5
    ensures ValidLength(|EncodeValues(bs)|)
    ensures DecodeValues(EncodeValues(bs)) == bs
  {
    var vs := EncodeGroup(bs);
    assert EncodeValues(bs) == vs;
    EncodeValuesLength(bs);
    assert GroupLength(|vs|) by {
      var k := |bs|;
      if k == 1 {} else if k == 2 {} else if k == 3 {} else if k == 4 {} else {}
    }
    GroupRoundTrip(bs);
    if |vs| == 8 {
      assert vs[..8] == vs && vs[8..] == [];
    }
  }

  lemma {:induction false} ValuesRoundTrip(bs: seq<byte>)
    ensures ValidLength(|EncodeValues(bs)|)
    ensures DecodeValues(EncodeValues(bs)) == bs
    decreases |bs|
  {
    EncodeValuesLength(bs);
    if |bs| > 5 {
      var head, tail := EncodeGroup(bs[..5]), EncodeValues(bs[5..]);
      assert EncodeValues(bs) == head + tail;
      ValuesRoundTrip(bs[5..]);
      GroupRoundTrip(bs[..5]);
      DecodeValuesAppend(head, tail);
      assert bs[..5] + bs[5..] == bs;
    } else if |bs| > 0 {
      ShortValuesRoundTrip(bs);
    }
  }

  lemma {:induction false} SymbolValuesOfSymbols(vs: seq<nat>)
    requires forall i :: 0 <= i < |vs| ==> vs[i] < 32
    ensures SymbolValues(Symbols(vs)) == Success(vs)
  {
    var s := Symbols(vs);
    if vs != [] {
      var n := |vs|;
      SymbolValuesOfSymbols(vs[..n - 1]);
      assert s[..n - 1] == Symbols(vs[..n - 1]);
      assert vs == vs[..n - 1] + [vs[n - 1]];
    }
  }

  /** Decoding an encoding gives the bytes back (section 6 of RFC 4648). */
  lemma DecodeEncode(bs: seq<byte>)
    ensures Decode(Encode(bs)) == Success(bs)
  {
    SymbolValuesOfSymbols(EncodeValues(bs));
    ValuesRoundTrip(bs);
  }

  /** An encoding is already clean, so a stored encoding of a key decodes
      to that key. */
  lemma CleanEncode(bs: seq<byte>)
    ensures Clean(Encode(bs)) == Encode(bs)
    ensures Decode(Clean(Encode(bs))) == Success(bs)
  {
    var s := Encode(bs);
    RemoveSpacesNone(s);
    assert ToUpper(s) == s;
    DecodeEncode(bs);
  }

  /** Spaces may be placed anywhere in a stored secret. */
  lemma CleanIgnoresSpace(a: string, b: string)
    ensures Clean(a + " " + b) == Clean(a + b)
  {
    RemoveSpacesAppend(a + " ", b);
    RemoveSpacesAppend(a, " ");
    RemoveSpacesAppend(a, b);
    assert RemoveSpaces(" ") == [];
  }

  /** A character outside the alphabet, such as `1`, `8`, `0` or the padding
      character `=`, makes the decoder fail, wherever it stands. */
  lemma IllegalSymbolFails(s: string, i: nat)
    requires i < |s| && !IsSymbol(s[i])
    ensures Decode(s).Failure?
    ensures SymbolValues(s).Failure? && Decode(s) == Failure(SymbolValues(s).error)
  {
  }
}
