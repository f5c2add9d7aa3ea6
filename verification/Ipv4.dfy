/** IPv4 addresses as numbers, their dotted decimal text, and networks. */
module Ipv4 {
  import opened Options
  import opened Strings
  import opened Text

  newtype Address = n: int | 0 <= n < 0x1_0000_0000

  function FromOctets(a: nat, b: nat, c: nat, d: nat): (n: Address)
    requires a < 256 && b < 256 && c < 256 && d < 256
  {
    (a * 0x100_0000 + b * 0x1_0000 + c * 0x100 + d) as Address
  }

  // ---- Dotted decimal ----

  function Digit(n: nat): (c: char)
    requires n < 10
    ensures IsDigit(c)
  {
    '0' + n as char
  }

  function DigitValue(c: char): (n: nat)
    requires IsDigit(c)
    ensures n < 10 && Digit(n) == c
  {
    (c - '0') as nat
  }

  function OctetText(n: nat): (s: string)
    requires n < 256
    ensures 1 <= |s| <= 3 && forall c <- s :: IsDigit(c)
  {
    if n < 10 then [Digit(n)]
    else if n < 100 then [Digit(n / 10), Digit(n % 10)]
    else [Digit(n / 100), Digit(n / 10 % 10), Digit(n % 10)]
  }

  // Digits only, at most three, no leading zero, at most 255.
  function ParseOctet(s: string): (r: Option<nat>)
    ensures r.Some? ==> r.value < 256
  {
    if s == [] || |s| > 3 || exists c <- s :: !IsDigit(c) then None
    else if |s| > 1 && s[0] == '0' then None
    else
      var n :=
        if |s| == 1 then DigitValue(s[0])
        else if |s| == 2 then 10 * DigitValue(s[0]) + DigitValue(s[1])
        else 100 * DigitValue(s[0]) + 10 * DigitValue(s[1]) + DigitValue(s[2]);
      if n > 255 then None else Some(n)
  }

  lemma OctetRoundTrip(n: nat)
    requires n < 256
    ensures ParseOctet(OctetText(n)) == Some(n)
  {
    if n < 10 {
      assert DigitValue(Digit(n)) == n;
    } else if n < 100 {
      assert DigitValue(Digit(n / 10)) == n / 10 && DigitValue(Digit(n % 10)) == n % 10;
    } else {
      assert n / 10 / 10 == n / 100;
    }
  }

  lemma TwoDigits(x: nat, y: nat)
    requires 1 <= x < 10 && y < 10
    ensures OctetText(10 * x + y) == [Digit(x), Digit(y)]
  {
  }

  lemma ThreeDigits(x: nat, y: nat, z: nat)
    requires 1 <= x < 10 && y < 10 && z < 10 && 100 * x + 10 * y + z < 256
    ensures OctetText(100 * x + 10 * y + z) == [Digit(x), Digit(y), Digit(z)]
  {
    var n := 100 * x + 10 * y + z;
    assert n / 10 == 10 * x + y && n / 100 == x;
  }

  lemma OctetTextUnique(s: string)
    requires ParseOctet(s).Some?
    ensures OctetText(ParseOctet(s).value) == s
  {
    if |s| == 1 {
      assert s == [s[0]];
    } else if |s| == 2 {
      assert s == [s[0], s[1]];
      TwoDigits(DigitValue(s[0]), DigitValue(s[1]));
    } else {
      assert s == [s[0], s[1], s[2]];
      ThreeDigits(DigitValue(s[0]), DigitValue(s[1]), DigitValue(s[2]));
    }
  }

  function DottedOctets(a: nat, b: nat, c: nat, d: nat): string
    requires a < 256 && b < 256 && c < 256 && d < 256
  {
    OctetText(a) + ['.'] + (OctetText(b) + ['.'] + (OctetText(c) + ['.'] + OctetText(d)))
  }

  function Octets(n: Address): (o: (nat, nat, nat, nat))
    ensures o.0 < 256 && o.1 < 256 && o.2 < 256 && o.3 < 256
    ensures FromOctets(o.0, o.1, o.2, o.3) == n
  {
    var i := n as int / 0x100;
    var j := i / 0x100;
    (j / 0x100, j % 0x100, i % 0x100, n as int % 0x100)
  }

  function Dotted(n: Address): string {
    var (a, b, c, d) := Octets(n);
    DottedOctets(a, b, c, d)
  }

  function Parse(s: string): Option<Address> {
    var parts := Split(s, '.');
    if |parts| != 4 then None
    else
      var a, b, c, d := ParseOctet(parts[0]), ParseOctet(parts[1]), ParseOctet(parts[2]), ParseOctet(parts[3]);
      if a.None? || b.None? || c.None? || d.None? then None
      else Some(FromOctets(a.value, b.value, c.value, d.value))
  }

  lemma SplitDotted(a: nat, b: nat, c: nat, d: nat)
    requires a < 256 && b < 256 && c < 256 && d < 256
    ensures Split(DottedOctets(a, b, c, d), '.') == [OctetText(a), OctetText(b), OctetText(c), OctetText(d)]
  {
    var t := OctetText(c) + ['.'] + OctetText(d);
    SplitAlone(OctetText(d), '.');
    SplitFront(OctetText(c), OctetText(d), '.');
    SplitFront(OctetText(b), t, '.');
    SplitFront(OctetText(a), OctetText(b) + ['.'] + t, '.');
  }

  lemma LowOctet(q: nat, r: nat)
    requires r < 256
    ensures (0x100 * q + r) / 0x100 == q && (0x100 * q + r) % 0x100 == r
  {
  }

  lemma OctetsUnique(a: nat, b: nat, c: nat, d: nat)
    requires a < 256 && b < 256 && c < 256 && d < 256
    ensures Octets(FromOctets(a, b, c, d)) == (a, b, c, d)
  {
    var i := 0x100 * a + b;
    var j := 0x100 * i + c;
    assert FromOctets(a, b, c, d) as int == 0x100 * j + d;
    LowOctet(j, d);
    LowOctet(i, c);
    LowOctet(a, b);
  }

  /** Text and number determine each other. */
  lemma DottedRoundTrip(n: Address)
    ensures Parse(Dotted(n)) == Some(n)
  {
    var (a, b, c, d) := Octets(n);
    SplitDotted(a, b, c, d);
    OctetRoundTrip(a);
    OctetRoundTrip(b);
    OctetRoundTrip(c);
    OctetRoundTrip(d);
  }

  lemma ParsedIsDotted(s: string)
    requires Parse(s).Some?
    ensures Dotted(Parse(s).value) == s
  {
    var p := Split(s, '.');
    OctetTextUnique(p[0]);
    OctetTextUnique(p[1]);
    OctetTextUnique(p[2]);
    OctetTextUnique(p[3]);
    var a, b, c, d := ParseOctet(p[0]).value, ParseOctet(p[1]).value, ParseOctet(p[2]).value, ParseOctet(p[3]).value;
    OctetsUnique(a, b, c, d);
    JoinSplit(s, '.');
    assert p == [p[0]] + ([p[1]] + ([p[2]] + [p[3]]));
    JoinConcat([p[2]], [p[3]], '.');
    JoinConcat([p[1]], [p[2]] + [p[3]], '.');
    JoinConcat([p[0]], [p[1]] + ([p[2]] + [p[3]]), '.');
  }

  // ---- Networks ----

  function Pow2(n: nat): (p: nat)
    ensures p > 0
  {
    if n == 0 then 1 else 2 * Pow2(n - 1)
  }

  // A base address and the number of fixed leading bits.
  datatype Net = Net(base: Address, bits: nat)

  predicate Contains(net: Net, ip: Address) {
    var size := Pow2(if net.bits <= 32 then 32 - net.bits else 0);
    ip as int / size == net.base as int / size
  }

  lemma MultiplesApart(size: nat, j: int, k: int)
    ensures j < k ==> size * j + size <= size * k
  {
    if j < k {
      assert size * (j + 1) <= size * k;
    }
  }

  lemma QuotientBetween(x: int, q: int, size: int)
    requires size > 0 && size * q <= x < size * q + size
    ensures x / size == q
  {
    MultiplesApart(size, x / size, q);
    MultiplesApart(size, q, x / size);
  }

  lemma SameQuotient(x: int, b: int, size: int)
    requires size > 0
    ensures x / size == b / size <==> b - b % size <= x < b - b % size + size
  {
    if b - b % size <= x < b - b % size + size {
      QuotientBetween(x, b / size, size);
    }
  }

  /** A network of n fixed bits is the block of 2^(32 - n) addresses around its base. */
  lemma ContainsRange(net: Net, ip: Address, size: nat, base: nat)
    requires net.bits <= 32 && size == Pow2(32 - net.bits) && base == net.base as int - net.base as int % size
    ensures Contains(net, ip) <==> base <= ip as int < base + size
  {
    SameQuotient(ip as int, net.base as int, size);
  }

  // x is in the block of the given size that b lies in.
  ghost predicate Near(x: int, b: int, size: int)
    requires size > 0
  {
    b - b % size <= x < b - b % size + size
  }

  lemma SameIsNear(x: int, b: int, size: int)
    requires size > 0
    ensures x / size == b / size <==> Near(x, b, size)
  {
    SameQuotient(x, b, size);
  }

  // The block of 2^(32 - bits) addresses that the base lies in.
  ghost predicate InBlock(net: Net, ip: Address)
    requires net.bits <= 32
  {
    Near(ip as int, net.base as int, Pow2(32 - net.bits))
  }

  lemma ContainsExactly(net: Net, ip: Address)
    requires net.bits <= 32
    ensures Contains(net, ip) <==> InBlock(net, ip)
  {
    SameIsNear(ip as int, net.base as int, Pow2(32 - net.bits));
  }

  lemma Powers()
    ensures Pow2(0) == 1 && Pow2(8) == 256 && Pow2(16) == 65536
    ensures Pow2(20) == 1048576 && Pow2(22) == 4194304 && Pow2(24) == 16777216 && Pow2(28) == 268435456
  {
    assert Pow2(4) == 16;
    assert Pow2(8) == 256;
    assert Pow2(12) == 4096;
    assert Pow2(16) == 65536;
    assert Pow2(20) == 1048576;
    assert Pow2(24) == 16777216;
  }

  /** Of an aligned base, the block from it on. */
  lemma AlignedRange(base: Address, bits: nat, ip: Address)
    requires bits <= 32 && base as int % Pow2(32 - bits) == 0
    ensures Contains(Net(base, bits), ip) <==> base as int <= ip as int < base as int + Pow2(32 - bits)
  {
    ContainsRange(Net(base, bits), ip, Pow2(32 - bits), base as int);
  }

  /** A dotted text is read as the number of its four octets, in network order. */
  lemma DottedValue(a: nat, b: nat, c: nat, d: nat)
    requires a < 256 && b < 256 && c < 256 && d < 256
    ensures var r := Parse(DottedOctets(a, b, c, d));
      r.Some? && r.value as int == 16777216 * a + 65536 * b + 256 * c + d
  {
    SplitDotted(a, b, c, d);
    OctetRoundTrip(a);
    OctetRoundTrip(b);
    OctetRoundTrip(c);
    OctetRoundTrip(d);
  }
}
