/** The decimal verbs of Go's fmt that the listings use: `%d` and `%06d`. */
module Format {
  import opened Numeric

  predicate IsDigits(s: string)
  {
    forall i :: 0 <= i < |s| ==> '0' <= s[i] <= '9'
  }

  function DigitValues(s: string): (ds: seq<nat>)
    requires IsDigits(s)
    ensures |ds| == |s|
    ensures forall i :: 0 <= i < |s| ==> ds[i] < 10
  {
    seq(|s|, i requires 0 <= i < |s| => s[i] as int - '0' as int)
  }

  /** The number a numeral denotes. */
  function DecimalValue(s: string): nat
    requires IsDigits(s)
  {
    ValueOf(DigitValues(s), 10)
  }

  function DigitChar(d: nat): (c: char)
    requires d < 10
    ensures '0' <= c <= '9' && c as int - '0' as int == d
  {
    ('0' as int + d) as char
  }

  /** `%d` of a non-negative number: its shortest numeral, no leading zero. */
  function Decimal(n: nat): (s: string)
    ensures IsDigits(s) && DecimalValue(s) == n
    ensures 1 <= |s| && (s[0] == '0' ==> n == 0 && |s| == 1)
    decreases n
  {
    if n < 10 then
      var s := [DigitChar(n)];
      assert DigitValues(s) == [n];
      assert ValueOf([n], 10) == ValueOf([], 10) * 10 + n by {
        assert [n][..0] == [];
      }
      s
    else
      var high := Decimal(n / 10);
      var s := high + [DigitChar(n % 10)];
      assert DigitValues(s)[..|s| - 1] == DigitValues(high);
      s
  }

  /** A numeral of zeros denotes zero. */
  lemma {:induction false} ZerosValue(k: nat)
    ensures IsDigits(seq(k, _ => '0')) && DecimalValue(seq(k, _ => '0')) == 0
  {
    if k > 0 {
      ZerosValue(k - 1);
      assert DigitValues(seq(k, _ => '0'))[..k - 1] == DigitValues(seq(k - 1, _ => '0'));
    }
  }

  /** Leading zeros do not change the number a numeral denotes. */
  lemma LeadingZeros(k: nat, digits: string)
    requires IsDigits(digits)
    ensures IsDigits(seq(k, _ => '0') + digits)
    ensures DecimalValue(seq(k, _ => '0') + digits) == DecimalValue(digits)
  {
    var zeros := seq(k, _ => '0');
    ZerosValue(k);
    assert DigitValues(zeros + digits) == DigitValues(zeros) + DigitValues(digits);
    ValueOfAppend(DigitValues(zeros), DigitValues(digits), 10);
  }

  /** `%0<width>d`: the numeral of `n`, zero-filled on the left to `width`. */
  function ZeroPadded(n: nat, width: nat): (s: string)
    ensures IsDigits(s) && DecimalValue(s) == n
    ensures |s| == if |Decimal(n)| < width then width else |Decimal(n)|
  {
    var digits := Decimal(n);
    var fill := if |digits| < width then width - |digits| else 0;
    LeadingZeros(fill, digits);
    seq(fill, _ => '0') + digits
  }

  /** A number below 10^k has at most k digits. */
  lemma {:induction false} DecimalLength(n: nat, k: nat)
    requires 1 <= k && n < Pow(10, k)
    ensures |Decimal(n)| <= k
    decreases n
  {
    if n >= 10 {
      DecimalLength(n / 10, k - 1);
    }
  }

  /** `%06d` of a code below 10^6 is exactly six digits denoting the code. */
  lemma SixDigits(code: nat)
    requires code < 1000000
    ensures |ZeroPadded(code, 6)| == 6
  {
    assert Pow(10, 6) == 1000000;
    DecimalLength(code, 6);
  }

  // ---------------------------------------------------------------------
  // Text built up line by line with `text += fmt.Sprintf(...)`.

  /** The lines of `xs`, in order, each produced by `line`. */
  function Joined<T>(xs: seq<T>, line: T -> string): string
  {
    if xs == [] then "" else Joined(xs[..|xs| - 1], line) + line(xs[|xs| - 1])
  }

  /** Appending an element appends its line. */
  lemma JoinedSnoc<T>(xs: seq<T>, x: T, line: T -> string)
    ensures Joined(xs + [x], line) == Joined(xs, line) + line(x)
  {
    assert (xs + [x])[..|xs|] == xs;
  }

  /** The text of a concatenation is the concatenation of the texts. */
  lemma {:induction false} JoinedAppend<T>(a: seq<T>, b: seq<T>, line: T -> string)
    ensures Joined(a + b, line) == Joined(a, line) + Joined(b, line)
  {
    if b == [] {
      assert a + b == a;
    } else {
      var n := |b|;
      var init := b[..n - 1];
      assert (a + b)[..|a + b| - 1] == a + init;
      assert (a + b)[|a + b| - 1] == b[n - 1];
      JoinedAppend(a, init, line);
    }
  }

  /** The line of the k-th element stands between the lines of the elements
      before it and those after it. */
  lemma JoinedAt<T>(xs: seq<T>, k: nat, line: T -> string)
    requires k < |xs|
    ensures Joined(xs, line) == Joined(xs[..k], line) + line(xs[k]) + Joined(xs[k + 1..], line)
  {
    var before, after := xs[..k], xs[k + 1..];
    assert xs == (before + [xs[k]]) + after;
    JoinedAppend(before + [xs[k]], after, line);
    JoinedSnoc(before, xs[k], line);
  }

  /** The texts of `parts`, one after another. */
  function Concat(parts: seq<string>): string
  {
    if parts == [] then "" else Concat(parts[..|parts| - 1]) + parts[|parts| - 1]
  }

  /** Accumulating the lines in one string gives what writing them one by
      one gives. */
  lemma {:induction false} JoinedConcat<T>(xs: seq<T>, line: T -> string, parts: seq<string>)
    requires |parts| == |xs| && forall k :: 0 <= k < |xs| ==> parts[k] == line(xs[k])
    ensures Joined(xs, line) == Concat(parts)
  {
    if xs != [] {
      var n := |xs|;
      JoinedConcat(xs[..n - 1], line, parts[..n - 1]);
    }
  }
}
