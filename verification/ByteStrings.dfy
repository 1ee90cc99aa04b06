/**
  Go strings as byte sequences: decimal printing as fmt's %d does it, the
  bytewise order of the `<` operator on strings, and what makes decimals
  self-delimiting inside a longer byte string.
*/
module ByteStrings {

  newtype Byte = b: int | 0 <= b < 256

  type Bytes = seq<Byte>

  const QUOTE: Byte := 39

  /** The bytes of an ASCII literal. */
  function Ascii(s: string): (r: Bytes)
    requires forall i | 0 <= i < |s| :: s[i] < 128 as char
    ensures |r| == |s|
    ensures forall i | 0 <= i < |s| :: r[i] as int == s[i] as int
  {
    seq(|s|, i requires 0 <= i < |s| => (s[i] as int) as Byte)
  }

  predicate IsDigit(b: Byte) {
    48 <= b <= 57
  }

  /** %d of a non-negative number. */
  function Decimal(n: nat): (r: Bytes)
    ensures |r| >= 1
    ensures forall i | 0 <= i < |r| :: IsDigit(r[i])
  {
    if n < 10 then [(48 + n) as Byte] else Decimal(n / 10) + [(48 + n % 10) as Byte]
  }

  /** %d of any integer. */
  function Signed(v: int): (r: Bytes)
    ensures |r| >= 1
  {
    if v < 0 then [45] + Decimal(-v) else Decimal(v)
  }

  function DecimalValue(s: Bytes): int {
    if s == [] then 0 else DecimalValue(s[..|s| - 1]) * 10 + (s[|s| - 1] as int - 48)
  }

  lemma {:induction false} DecimalRoundTrip(n: nat)
    ensures DecimalValue(Decimal(n)) == n
  {
    if n < 10 {
      assert Decimal(n)[..0] == [];
    } else {
      DecimalRoundTrip(n / 10);
      assert Decimal(n)[..|Decimal(n)| - 1] == Decimal(n / 10);
    }
  }

  /** Decimals have no leading zero, so a number has one decimal only. */
  lemma {:induction false} DecimalPlain(n: nat)
    ensures |Decimal(n)| > 1 ==> Decimal(n)[0] != 48
    ensures n > 0 ==> Decimal(n)[0] != 48
  {
    if n >= 10 {
      DecimalPlain(n / 10);
    }
  }

  lemma {:induction false} DecimalLengthMonotone(m: nat, n: nat)
    requires m <= n
    ensures |Decimal(m)| <= |Decimal(n)|
  {
    if n >= 10 && m >= 10 {
      DecimalLengthMonotone(m / 10, n / 10);
    }
  }

  function Pow10(k: nat): nat {
    if k == 0 then 1 else 10 * Pow10(k - 1)
  }

  lemma {:induction false} DecimalWidth(n: nat, k: nat)
    requires k >= 1 && n < Pow10(k)
    ensures |Decimal(n)| <= k
  {
    if n >= 10 {
      DecimalWidth(n / 10, k - 1);
    }
  }

  lemma Reassociate(a: Bytes, b: Bytes, c: Bytes)
    ensures (a + b) + c == a + (b + c)
  {}

  lemma CancelPrefix(a: Bytes, b: Bytes, x: Bytes, y: Bytes)
    requires |a| == |b| && a + x == b + y
    ensures a == b && x == y
  {
    assert a == (a + x)[..|a|] == (b + y)[..|b|] == b;
    assert x == (a + x)[|a|..] == (b + y)[|b|..] == y;
  }

  /** A decimal followed by a byte that is no digit can be read off the front. */
  lemma DecimalPrefix(m: nat, n: nat, end: Byte, x: Bytes, y: Bytes)
    requires !IsDigit(end)
    requires Decimal(m) + ([end] + x) == Decimal(n) + ([end] + y)
    ensures m == n && x == y
  {
    var a, b := Decimal(m), Decimal(n);
    var whole := a + ([end] + x);
    assert whole[|a|] == end && (b + ([end] + y))[|b|] == end;
    assert |a| == |b|;
    assert a == whole[..|a|] == b;
    assert x == whole[|a| + 1..] == y;
    DecimalRoundTrip(m);
    DecimalRoundTrip(n);
  }

  lemma SignedHead(v: int, t: Bytes)
    ensures (Signed(v) + t)[0] == 45 <==> v < 0
    ensures if v < 0 then (Signed(v) + t)[1..] == Decimal(-v) + t else Signed(v) == Decimal(v)
  {
    if v >= 0 {
      assert IsDigit(Decimal(v)[0]);
    }
  }

  lemma SignedPrefix(v: int, w: int, end: Byte, x: Bytes, y: Bytes)
    requires !IsDigit(end)
    requires Signed(v) + ([end] + x) == Signed(w) + ([end] + y)
    ensures v == w && x == y
  {
    hide Decimal;
    hide Signed;
    SignedHead(v, [end] + x);
    SignedHead(w, [end] + y);
    if v < 0 {
      DecimalPrefix(-v, -w, end, x, y);
    } else {
      DecimalPrefix(v, w, end, x, y);
    }
  }

  /** How often a single quote occurs, as strings.Count(s, "'"). */
  function QuoteCount(s: Bytes): nat {
    if s == [] then 0 else (if s[0] == QUOTE then 1 else 0) + QuoteCount(s[1..])
  }

  lemma {:induction false} QuoteCountConcat(s: Bytes, t: Bytes)
    ensures QuoteCount(s + t) == QuoteCount(s) + QuoteCount(t)
  {
    if s == [] {
      assert s + t == t;
    } else {
      assert (s + t)[1..] == s[1..] + t;
      QuoteCountConcat(s[1..], t);
    }
  }

  lemma {:induction false} QuoteCountCounts(s: Bytes)
    ensures QuoteCount(s) == multiset(s)[QUOTE]
  {
    if s != [] {
      QuoteCountCounts(s[1..]);
      assert s == [s[0]] + s[1..];
    }
  }

  lemma {:induction false} NoQuotes(s: Bytes)
    requires QUOTE !in s
    ensures QuoteCount(s) == 0
  {
    if s != [] {
      NoQuotes(s[1..]);
    }
  }

  /** The `<` of Go strings: bytewise, a proper prefix comes first. */
  predicate Less(a: Bytes, b: Bytes) {
    b != [] && (a == [] || a[0] < b[0] || (a[0] == b[0] && Less(a[1..], b[1..])))
  }

  lemma {:induction false} LessTotal(a: Bytes, b: Bytes)
    ensures a == b || Less(a, b) || Less(b, a)
    ensures !(Less(a, b) && Less(b, a))
    ensures !Less(a, a)
  {
    if a != [] {
      LessTotal(a[1..], a[1..]);
      if b != [] {
        LessTotal(a[1..], b[1..]);
        assert a == [a[0]] + a[1..] && b == [b[0]] + b[1..];
      }
    }
  }

  lemma {:induction false} LessTransitive(a: Bytes, b: Bytes, c: Bytes)
    requires Less(a, b) && Less(b, c)
    ensures Less(a, c)
  {
    if a != [] && a[0] == b[0] && b[0] == c[0] {
      LessTransitive(a[1..], b[1..], c[1..]);
    }
  }
}
