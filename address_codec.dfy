/**
 * Conversions between the dotted-quad text of an IPv4 address ("a.b.c.d"),
 * its four octets, and its 32-bit integer ("long") form
 * a*2^24 + b*2^16 + c*2^8 + d.
 */
module AddressCodec {

  const TWO_8: nat := 256
  const TWO_16: nat := 65536
  const TWO_24: nat := 16777216
  const TWO_32: nat := 0x1_0000_0000

  /** One byte of an address. */
  type Octet = x: int | 0 <= x < 256

  /** An IPv4 address in its integer form. */
  type Address = x: int | 0 <= x < 0x1_0000_0000

  /** The four octets of an address, most significant first (arr[0..3] in the source). */
  datatype Quad = Quad(a: Octet, b: Octet, c: Octet, d: Octet)

  /** The integer an address's octets stand for: the reference meaning of both directions. */
  function ToLong(q: Quad): Address
  {
    q.a * TWO_24 + q.b * TWO_16 + q.c * TWO_8 + q.d
  }

  /**
   * long2iparray: peels off the low byte three times by division by 256.
   * The source does this with floating division and Math.floor; for an
   * integer below 2^32 every quotient is exact, so the integer quotient and
   * remainder give the same octets.
   */
  function Long2IpArray(n: Address): (q: Quad)
    ensures ToLong(q) == n
  {
    var t1 := n / 256;
    var d := n % 256;
    var t2 := t1 / 256;
    var c := t1 % 256;
    var t3 := t2 / 256;
    var b := t2 % 256;
    Quad(t3, b, c, d)
  }

  /** Two addresses with the same octets are the same address, and every quad is some address's octets. */
  lemma Long2IpArrayOfToLong(q: Quad)
    ensures Long2IpArray(ToLong(q)) == q
  {
    var n := ToLong(q);
    assert n == ((q.a * 256 + q.b) * 256 + q.c) * 256 + q.d;
    DivModUnique(n, (q.a * 256 + q.b) * 256 + q.c, q.d);
    DivModUnique(n / 256, q.a * 256 + q.b, q.c);
    DivModUnique(n / 256 / 256, q.a, q.b);
  }

  /** Euclidean division by 256 is determined by quotient and remainder. */
  lemma DivModUnique(n: int, hi: int, lo: int)
    requires 0 <= lo < 256 && n == hi * 256 + lo
    ensures n / 256 == hi && n % 256 == lo
  {
  }

  // ---------------------------------------------------------------------
  // Decimal text of one octet

  predicate IsDigit(ch: char)
  {
    '0' <= ch <= '9'
  }

  predicate IsDigits(s: string)
  {
    forall i :: 0 <= i < |s| ==> IsDigit(s[i])
  }

  /** Decimal text without superfluous leading zeros ("0", "7", "87", "229"). */
  predicate IsCanonicalDecimal(s: string)
  {
    |s| >= 1 && IsDigits(s) && (s[0] == '0' ==> |s| == 1)
  }

  function DigitValue(ch: char): (v: nat)
    requires IsDigit(ch)
    ensures v < 10
  {
    ch as int - '0' as int
  }

  function DigitChar(v: nat): (ch: char)
    requires v < 10
    ensures IsDigit(ch) && DigitValue(ch) == v
  {
    ('0' as int + v) as char
  }

  function Pow10(k: nat): (p: nat)
    ensures p >= 1
  {
    if k == 0 then 1 else Pow10(k - 1) * 10
  }

  /** The number a string of decimal digits denotes (parseInt, or Number coercion, on digits). */
  function DecimalValue(s: string): (v: nat)
    requires IsDigits(s)
    ensures v < Pow10(|s|)
    decreases |s|
  {
    if |s| == 0 then 0 else DecimalValue(s[..|s| - 1]) * 10 + DigitValue(s[|s| - 1])
  }

  /** The decimal rendering of a number (JavaScript's number-to-string on integers). */
  function Decimal(n: nat): (s: string)
    ensures IsCanonicalDecimal(s)
    decreases n
  {
    if n < 10 then [DigitChar(n)] else Decimal(n / 10) + [DigitChar(n % 10)]
  }

  lemma {:induction false} DecimalValueOfDecimal(n: nat)
    ensures DecimalValue(Decimal(n)) == n
    decreases n
  {
    var s := Decimal(n);
    if n >= 10 {
      DecimalValueOfDecimal(n / 10);
      assert s[..|s| - 1] == Decimal(n / 10);
    }
  }

  /** A digit string whose first digit is not zero denotes a positive number. */
  lemma {:induction false} DecimalValuePositive(s: string)
    requires |s| >= 1 && IsDigits(s) && s[0] != '0'
    ensures DecimalValue(s) >= 1
    decreases |s|
  {
    if |s| > 1 {
      DecimalValuePositive(s[..|s| - 1]);
    }
  }

  lemma {:induction false} DecimalOfDecimalValue(s: string)
    requires IsCanonicalDecimal(s)
    ensures Decimal(DecimalValue(s)) == s
    decreases |s|
  {
    var n := DecimalValue(s);
    var front := s[..|s| - 1];
    if |s| == 1 {
      assert s[..0] == [];
      assert n == DecimalValue(s[..0]) * 10 + DigitValue(s[0]);
      assert DigitChar(n) == s[0];
    } else {
      assert s[0] != '0';
      DecimalValuePositive(front);
      DecimalOfDecimalValue(front);
      assert n / 10 == DecimalValue(front) && n % 10 == DigitValue(s[|s| - 1]);
      assert DigitChar(n % 10) == s[|s| - 1];
      assert s == front + [s[|s| - 1]];
    }
  }

  /** The text of one octet, as an ip string must hold it. */
  predicate IsOctetText(s: string)
  {
    IsCanonicalDecimal(s) && DecimalValue(s) < 256
  }

  // ---------------------------------------------------------------------
  // String.prototype.split with a one-character separator

  function IndexOf(s: string, ch: char): (i: nat)
    requires ch in s
    ensures i < |s| && s[i] == ch && ch !in s[..i]
  {
    if s[0] == ch then 0 else 1 + IndexOf(s[1..], ch)
  }

  /** The pieces of `s` between occurrences of `sep`; like JavaScript, always at least one piece. */
  function Split(s: string, sep: char): (parts: seq<string>)
    ensures |parts| >= 1
    ensures forall i :: 0 <= i < |parts| ==> sep !in parts[i]
    decreases |s|
  {
    if sep in s then
      var i := IndexOf(s, sep);
      [s[..i]] + Split(s[i + 1..], sep)
    else
      [s]
  }

  /** The inverse of Split: the pieces glued together with `sep` between them. */
  function Join(parts: seq<string>, sep: char): string
    requires |parts| >= 1
  {
    if |parts| == 1 then parts[0] else parts[0] + [sep] + Join(parts[1..], sep)
  }

  lemma SplitFirst(p: string, sep: char, rest: string)
    requires sep !in p
    ensures Split(p + [sep] + rest, sep) == [p] + Split(rest, sep)
  {
    var s := p + [sep] + rest;
    assert s[|p|] == sep;
    assert forall k :: 0 <= k < |p| ==> s[k] == p[k];
    var i := IndexOf(s, sep);
    assert i == |p|;
    assert s[..|p|] == p;
    assert s[|p| + 1..] == rest;
  }

  lemma {:induction false} SplitJoin(parts: seq<string>, sep: char)
    requires |parts| >= 1
    requires forall i :: 0 <= i < |parts| ==> sep !in parts[i]
    ensures Split(Join(parts, sep), sep) == parts
  {
    if |parts| > 1 {
      var tail := parts[1..];
      assert forall i :: 0 <= i < |tail| ==> sep !in tail[i] by {
        forall i | 0 <= i < |tail| ensures sep !in tail[i] {
          assert tail[i] == parts[i + 1];
        }
      }
      SplitJoin(tail, sep);
      assert sep !in parts[0];
      SplitFirst(parts[0], sep, Join(tail, sep));
      assert Join(parts, sep) == parts[0] + [sep] + Join(tail, sep);
      assert [parts[0]] + tail == parts;
    }
  }

  lemma {:induction false} JoinSplit(s: string, sep: char)
    ensures Join(Split(s, sep), sep) == s
    decreases |s|
  {
    if sep in s {
      var i := IndexOf(s, sep);
      var head, tail := s[..i], s[i + 1..];
      var rest := Split(tail, sep);
      assert Split(s, sep) == [head] + rest;
      JoinSplit(tail, sep);
      assert ([head] + rest)[1..] == rest;
      assert Join([head] + rest, sep) == head + [sep] + Join(rest, sep);
      assert s == head + [sep] + tail;
    }
  }

  // ---------------------------------------------------------------------
  // ip2long and long2ip

  /** Four canonical decimal octets separated by dots: the format the source assumes. */
  predicate WellFormedIp(ip: string)
  {
    var parts := Split(ip, '.');
    |parts| == 4 && forall i :: 0 <= i < 4 ==> IsOctetText(parts[i])
  }

  /** The octets a well-formed ip text spells out (ip.split(".") read as numbers). */
  function OctetsOf(ip: string): Quad
    requires WellFormedIp(ip)
  {
    var parts := Split(ip, '.');
    Quad(DecimalValue(parts[0]), DecimalValue(parts[1]), DecimalValue(parts[2]), DecimalValue(parts[3]))
  }

  /** ip2long: arr[0] * 16777216 + arr[1] * 65536 + arr[2] * 256 + arr[3]. */
  function Ip2Long(ip: string): (n: Address)
    requires WellFormedIp(ip)
    ensures Long2IpArray(n) == OctetsOf(ip)
  {
    var parts := Split(ip, '.');
    Long2IpArrayOfToLong(OctetsOf(ip));
    DecimalValue(parts[0]) * 16777216 + DecimalValue(parts[1]) * 65536
      + DecimalValue(parts[2]) * 256 + DecimalValue(parts[3])
  }

  /** long2ip: the octets of long2iparray joined by dots. */
  function Long2Ip(n: Address): (ip: string)
    ensures WellFormedIp(ip)
    ensures OctetsOf(ip) == Long2IpArray(n)
  {
    var q := Long2IpArray(n);
    DottedOctets(q);
    Dotted(Decimal(q.a), Decimal(q.b), Decimal(q.c), Decimal(q.d))
  }

  /** Four pieces glued with dots between them, as long2ip's string concatenation builds them. */
  function Dotted(w: string, x: string, y: string, z: string): string
  {
    w + ['.'] + (x + ['.'] + (y + ['.'] + z))
  }

  /** Four dot-free pieces glued with dots split back into those four pieces. */
  lemma SplitDotted(w: string, x: string, y: string, z: string)
    requires '.' !in w && '.' !in x && '.' !in y && '.' !in z
    ensures Split(Dotted(w, x, y, z), '.') == [w, x, y, z]
  {
    var yz := y + ['.'] + z;
    var xyz := x + ['.'] + yz;
    var sz := Split(z, '.');
    assert sz == [z];
    SplitFirst(y, '.', z);
    var syz := Split(yz, '.');
    assert syz == [y] + sz;
    SplitFirst(x, '.', yz);
    var sxyz := Split(xyz, '.');
    assert sxyz == [x] + syz;
    SplitFirst(w, '.', xyz);
    assert Split(w + ['.'] + xyz, '.') == [w] + sxyz;
    FourPieces(w, x, y, z);
  }

  lemma FourPieces(w: string, x: string, y: string, z: string)
    ensures [w] + ([x] + ([y] + [z])) == [w, x, y, z]
  {
  }

  lemma DottedOctets(q: Quad)
    ensures var ip := Dotted(Decimal(q.a), Decimal(q.b), Decimal(q.c), Decimal(q.d));
      WellFormedIp(ip) && OctetsOf(ip) == q
  {
    DecimalValueOfDecimal(q.a);
    DecimalValueOfDecimal(q.b);
    DecimalValueOfDecimal(q.c);
    DecimalValueOfDecimal(q.d);
    SplitDotted(Decimal(q.a), Decimal(q.b), Decimal(q.c), Decimal(q.d));
  }

  /** The integer ip2long computes is the address of the octets the text spells out. */
  lemma Ip2LongIsToLong(ip: string)
    requires WellFormedIp(ip)
    ensures Ip2Long(ip) == ToLong(OctetsOf(ip))
    ensures Long2IpArray(Ip2Long(ip)) == OctetsOf(ip)
  {
    Long2IpArrayOfToLong(OctetsOf(ip));
  }

  /** Round trip from the integer side: ip2long(long2ip(n)) == n. */
  lemma Ip2LongOfLong2Ip(n: Address)
    ensures Ip2Long(Long2Ip(n)) == n
  {
    Ip2LongIsToLong(Long2Ip(n));
  }

  /** Round trip from the text side: long2ip(ip2long(ip)) == ip for well-formed text. */
  lemma Long2IpOfIp2Long(ip: string)
    requires WellFormedIp(ip)
    ensures Long2Ip(Ip2Long(ip)) == ip
  {
    var parts := Split(ip, '.');
    Ip2LongIsToLong(ip);
    var q := OctetsOf(ip);
    forall i | 0 <= i < 4
      ensures Decimal(DecimalValue(parts[i])) == parts[i]
    {
      DecimalOfDecimalValue(parts[i]);
    }
    JoinSplit(ip, '.');
    assert Join(parts[3..], '.') == parts[3];
    assert Join(parts[2..], '.') == parts[2] + ['.'] + parts[3] by {
      assert parts[2..][1..] == parts[3..];
    }
    assert Join(parts[1..], '.') == parts[1] + ['.'] + (parts[2] + ['.'] + parts[3]) by {
      assert parts[1..][1..] == parts[2..];
    }
    assert ip == Dotted(parts[0], parts[1], parts[2], parts[3]);
  }

  /** An address whose octets render as the given text converts to and from that text. */
  lemma ConvertsBothWays(n: Address, q: Quad, ip: string)
    requires Long2IpArray(n) == q
    requires Dotted(Decimal(q.a), Decimal(q.b), Decimal(q.c), Decimal(q.d)) == ip
    ensures WellFormedIp(ip) && Long2Ip(n) == ip && Ip2Long(ip) == n
  {
    Ip2LongOfLong2Ip(n);
  }

  /** The conversions the repository's tests check, in both directions. */
  lemma KnownValues()
    ensures Long2Ip(1474659864) == "87.229.134.24" && Ip2Long("87.229.134.24") == 1474659864
    ensures Long2Ip(3654613152) == "217.212.248.160" && Ip2Long("217.212.248.160") == 3654613152
    ensures Long2Ip(3158424160) == "188.65.186.96" && Ip2Long("188.65.186.96") == 3158424160
    ensures Long2Ip(16843009) == "1.1.1.1" && Ip2Long("1.1.1.1") == 16843009
  {
    KnownValue1();
    KnownValue2();
    KnownValue3();
    KnownValue4();
  }

  lemma KnownValue1()
    ensures Long2Ip(1474659864) == "87.229.134.24" && Ip2Long("87.229.134.24") == 1474659864
  {
    var q := Quad(87, 229, 134, 24);
    Long2IpArrayOfToLong(q);
    DecimalSnoc(8, 7);
    assert Decimal(87) == "87";
    DecimalSnoc(2, 2);
    DecimalSnoc(22, 9);
    assert Decimal(229) == "229";
    DecimalSnoc(1, 3);
    DecimalSnoc(13, 4);
    assert Decimal(134) == "134";
    DecimalSnoc(2, 4);
    assert Decimal(24) == "24";
    assert Dotted("87", "229", "134", "24") == "87.229.134.24";
    ConvertsBothWays(1474659864, q, "87.229.134.24");
  }

  lemma KnownValue2()
    ensures Long2Ip(3654613152) == "217.212.248.160" && Ip2Long("217.212.248.160") == 3654613152
  {
    var q := Quad(217, 212, 248, 160);
    Long2IpArrayOfToLong(q);
    DecimalSnoc(2, 1);
    DecimalSnoc(21, 7);
    assert Decimal(217) == "217";
    DecimalSnoc(2, 1);
    DecimalSnoc(21, 2);
    assert Decimal(212) == "212";
    DecimalSnoc(2, 4);
    DecimalSnoc(24, 8);
    assert Decimal(248) == "248";
    DecimalSnoc(1, 6);
    DecimalSnoc(16, 0);
    assert Decimal(160) == "160";
    assert Dotted("217", "212", "248", "160") == "217.212.248.160";
    ConvertsBothWays(3654613152, q, "217.212.248.160");
  }

  lemma KnownValue3()
    ensures Long2Ip(3158424160) == "188.65.186.96" && Ip2Long("188.65.186.96") == 3158424160
  {
    var q := Quad(188, 65, 186, 96);
    Long2IpArrayOfToLong(q);
    DecimalSnoc(1, 8);
    DecimalSnoc(18, 8);
    assert Decimal(188) == "188";
    DecimalSnoc(6, 5);
    assert Decimal(65) == "65";
    DecimalSnoc(1, 8);
    DecimalSnoc(18, 6);
    assert Decimal(186) == "186";
    DecimalSnoc(9, 6);
    assert Decimal(96) == "96";
    assert Dotted("188", "65", "186", "96") == "188.65.186.96";
    ConvertsBothWays(3158424160, q, "188.65.186.96");
  }

  lemma KnownValue4()
    ensures Long2Ip(16843009) == "1.1.1.1" && Ip2Long("1.1.1.1") == 16843009
  {
    var q := Quad(1, 1, 1, 1);
    Long2IpArrayOfToLong(q);
    assert Decimal(1) == "1";
    assert Dotted("1", "1", "1", "1") == "1.1.1.1";
    ConvertsBothWays(16843009, q, "1.1.1.1");
  }

  lemma DivTen(n: int, hi: int, lo: int)
    requires 0 <= lo < 10 && n == hi * 10 + lo
    ensures n / 10 == hi && n % 10 == lo
  {
  }

  /** Appending a digit to a number appends its character to the rendering. */
  lemma DecimalSnoc(m: nat, d: nat)
    requires 1 <= m && d < 10
    ensures Decimal(m * 10 + d) == Decimal(m) + [DigitChar(d)]
  {
    DivTen(m * 10 + d, m, d);
  }
}
