/**
 * The dotted-decimal text of an IPv4 address, as socket.inet_ntop(AF_INET)
 * prints it and socket.inet_pton(AF_INET) parses it (four decimal octets,
 * each at most 255, no leading zeros, nothing else).
 */
module Ipv4 {
  import opened Wire

  predicate IsDigit(c: char) { '0' <= c <= '9' }

  predicate AllDigits(p: string)
  {
    forall i | 0 <= i < |p| :: IsDigit(p[i])
  }

  function DigitChar(d: int): (c: char)
    requires 0 <= d < 10
    ensures IsDigit(c)
  {
    (0x30 + d) as char
  }

  /** The decimal numeral of n, without leading zeros. */
  function Decimal(n: nat): (s: string)
    decreases n
  {
    if n < 10 then [DigitChar(n)] else Decimal(n / 10) + [DigitChar(n % 10)]
  }

  /** The value of a string of decimal digits. */
  function DigitsValue(p: string): nat
    requires AllDigits(p)
    decreases |p|
  {
    if p == [] then 0 else DigitsValue(p[..|p| - 1]) * 10 + (p[|p| - 1] as int - 0x30)
  }

  /** One octet as inet_pton accepts it: 1 to 3 digits, no leading zero
      unless the octet is "0", value at most 255. */
  predicate IsOctetText(p: string)
  {
    |p| > 0 && AllDigits(p) && (|p| > 1 ==> p[0] != '0')
  }

  function ParseOctet(p: string): Option<byte>
  {
    if IsOctetText(p) && DigitsValue(p) < 256 then Some(DigitsValue(p)) else None
  }

  /** The pieces of s between dots (a text without dots is one piece). */
  function Split(s: string): (parts: seq<string>)
    ensures |parts| >= 1
  {
    if s == [] then [[]]
    else
      var rest := Split(s[1..]);
      if s[0] == '.' then [[]] + rest else [[s[0]] + rest[0]] + rest[1..]
  }

  /** inet_ntop(AF_INET, a) */
  function Format(a: Bytes): string
    requires |a| == 4
  {
    Decimal(a[0]) + "." + Decimal(a[1]) + "." + Decimal(a[2]) + "." + Decimal(a[3])
  }

  /** inet_pton(AF_INET, s): None where the Python implementation raises OSError. */
  function Parse(s: string): (r: Option<Bytes>)
    ensures r.Some? ==> |r.value| == 4
  {
    var parts := Split(s);
    if |parts| != 4 then None
    else match (ParseOctet(parts[0]), ParseOctet(parts[1]), ParseOctet(parts[2]), ParseOctet(parts[3]))
      case (Some(a), Some(b), Some(c), Some(d)) => Some([a, b, c, d])
      case _ => None
  }

  // ---- decimal numerals ----

  lemma {:induction false} DecimalIsOctetText(n: nat)
    ensures IsOctetText(Decimal(n)) && DigitsValue(Decimal(n)) == n
    ensures '.' !in Decimal(n)
    decreases n
  {
    if n >= 10 {
      DecimalIsOctetText(n / 10);
      var d := Decimal(n);
      assert d == Decimal(n / 10) + [DigitChar(n % 10)];
      assert d[..|d| - 1] == Decimal(n / 10);
      assert forall i | 0 <= i < |d| - 1 :: d[i] == Decimal(n / 10)[i];
    }
  }

  lemma {:induction false} LeadingDigitPositive(p: string)
    requires IsOctetText(p) && p[0] != '0'
    ensures DigitsValue(p) >= 1
    decreases |p|
  {
    if |p| > 1 {
      var q := p[..|p| - 1];
      assert q[0] == p[0];
      LeadingDigitPositive(q);
    }
  }

  /** A numeral without leading zeros is the decimal form of its value. */
  lemma {:induction false} OctetTextIsDecimal(p: string)
    requires IsOctetText(p)
    ensures Decimal(DigitsValue(p)) == p
    decreases |p|
  {
    var v := DigitsValue(p);
    if |p| == 1 {
      assert p == [p[0]];
    } else {
      var q := p[..|p| - 1];
      var d := p[|p| - 1] as int - 0x30;
      assert q[0] == p[0];
      assert IsOctetText(q);
      LeadingDigitPositive(q);
      OctetTextIsDecimal(q);
      assert v == DigitsValue(q) * 10 + d;
      assert v / 10 == DigitsValue(q) && v % 10 == d;
      assert DigitChar(d) == p[|p| - 1];
      assert p == q + [p[|p| - 1]];
    }
  }

  // ---- splitting on dots ----

  lemma {:induction false} SplitNoDot(x: string)
    requires '.' !in x
    ensures Split(x) == [x]
  {
    if x != [] {
      assert '.' !in x[1..] by { assert forall i | 0 <= i < |x[1..]| :: x[1..][i] == x[i + 1]; }
      SplitNoDot(x[1..]);
      assert [x[0]] + x[1..] == x;
    }
  }

  lemma {:induction false} SplitDotRight(x: string, y: string)
    requires '.' !in y
    ensures Split(x + "." + y) == Split(x) + [y]
  {
    if x == [] {
      assert x + "." + y == ['.'] + y;
      assert (['.'] + y)[1..] == y;
      SplitNoDot(y);
    } else {
      SplitDotRight(x[1..], y);
      assert (x + "." + y)[1..] == x[1..] + "." + y;
    }
  }

  /** The text is the pieces joined with dots. */
  function Join(parts: seq<string>): string
    requires |parts| >= 1
  {
    if |parts| == 1 then parts[0] else parts[0] + "." + Join(parts[1..])
  }

  lemma {:induction false} JoinSplit(s: string)
    ensures Join(Split(s)) == s
    ensures forall i | 0 <= i < |Split(s)| :: '.' !in Split(s)[i]
  {
    if s != [] {
      JoinSplit(s[1..]);
      var rest := Split(s[1..]);
      if s[0] == '.' {
        assert Split(s) == [[]] + rest;
        assert Split(s)[1..] == rest;
        if |rest| == 1 {
          assert Join(Split(s)) == [] + "." + rest[0];
        }
        assert s == ['.'] + s[1..];
      } else {
        var parts := Split(s);
        assert parts == [[s[0]] + rest[0]] + rest[1..];
        assert forall i | 1 <= i < |parts| :: parts[i] == rest[i];
        if |rest| > 1 {
          assert parts[1..] == rest[1..];
          assert Join(rest) == rest[0] + "." + Join(rest[1..]);
        }
        assert s == [s[0]] + s[1..];
      }
    }
  }

  // ---- the address text is a bijection with 4 bytes ----

  /** Parsing the printed form gives back the address. */
  lemma ParseFormat(a: Bytes)
    requires |a| == 4
    ensures Parse(Format(a)) == Some(a)
  {
    DecimalIsOctetText(a[0]);
    DecimalIsOctetText(a[1]);
    DecimalIsOctetText(a[2]);
    DecimalIsOctetText(a[3]);
    var d0, d1, d2, d3 := Decimal(a[0]), Decimal(a[1]), Decimal(a[2]), Decimal(a[3]);
    SplitNoDot(d0);
    SplitDotRight(d0, d1);
    SplitDotRight(d0 + "." + d1, d2);
    SplitDotRight(d0 + "." + d1 + "." + d2, d3);
    ParseOfParts(Format(a), a);
  }

  lemma ParseOfParts(s: string, a: Bytes)
    requires |a| == 4 && |Split(s)| == 4
    requires forall i | 0 <= i < 4 :: ParseOctet(Split(s)[i]) == Some(a[i])
    ensures Parse(s) == Some(a)
  {
    assert [a[0], a[1], a[2], a[3]] == a;
  }

  lemma ParseParts(s: string)
    requires Parse(s).Some?
    ensures |Split(s)| == 4 && |Parse(s).value| == 4
    ensures forall i | 0 <= i < 4 :: ParseOctet(Split(s)[i]) == Some(Parse(s).value[i])
  {
  }

  lemma JoinFour(parts: seq<string>)
    requires |parts| == 4
    ensures Join(parts) == parts[0] + "." + parts[1] + "." + parts[2] + "." + parts[3]
  {
    assert parts[1..][1..][1..] == [parts[3]];
    assert Join(parts[2..]) == parts[2] + "." + parts[3];
    assert Join(parts[1..]) == parts[1] + "." + Join(parts[2..]);
  }

  /** Whatever parses is the printed form of what it parses to. */
  lemma FormatParse(s: string)
    requires Parse(s).Some?
    ensures |Parse(s).value| == 4 && Format(Parse(s).value) == s
  {
    var parts := Split(s);
    var a := Parse(s).value;
    ParseParts(s);
    JoinSplit(s);
    JoinFour(parts);
    OctetTextIsDecimal(parts[0]);
    OctetTextIsDecimal(parts[1]);
    OctetTextIsDecimal(parts[2]);
    OctetTextIsDecimal(parts[3]);
  }
}
