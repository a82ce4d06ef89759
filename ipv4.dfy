/** IPv4 addresses as 32-bit numbers and their dotted-quad text, as
    `ipaddress.IPv4Address(text)` reads it and `str(address)` writes it. */
module Ipv4 {
  import opened Text
  import opened Numbers

  const AddressSpace: nat := 0x1_0000_0000

  type Address = n: int | 0 <= n < AddressSpace

  /** One octet of dotted-quad text: one to three ASCII digits, no leading
      zero except in `0` itself, at most 255. `None` where `ipaddress`
      raises. */
  function ParseOctet(text: string): (r: Option<nat>)
    ensures r.Some? <==> IsCanonical(text) && |text| <= 3 && DigitsValue(text) <= 255
    ensures r.Some? ==> r.value == DigitsValue(text)
  {
    if |text| == 0 || !AllDigits(text) || |text| > 3 || (text != "0" && text[0] == '0') then None
    else if DigitsValue(text) > 255 then None
    else Some(DigitsValue(text))
  }

  /** The address whose four octets, most significant first, are `o`. */
  function FromOctets(o0: nat, o1: nat, o2: nat, o3: nat): (a: Address)
    requires o0 < 256 && o1 < 256 && o2 < 256 && o3 < 256
  {
    ((o0 * 256 + o1) * 256 + o2) * 256 + o3
  }

  /** Octet `i` of an address, counted from the most significant. */
  function Octets(a: Address): (o: seq<nat>)
    ensures |o| == 4 && forall i :: 0 <= i < 4 ==> o[i] < 256
  {
    [a / 0x100_0000, a / 0x1_0000 % 256, a / 256 % 256, a % 256]
  }

  /** `IPv4Address(text)`: four octets separated by dots, nothing else; the
      address holds the four octet values, most significant first. */
  function ParseAddress(text: string): (r: Option<Address>)
    ensures var parts := Split(text, '.');
            r.Some? <==> |parts| == 4 && forall i :: 0 <= i < 4 ==> ParseOctet(parts[i]).Some?
    ensures var parts := Split(text, '.');
            r.Some? ==> Octets(r.value) == [ParseOctet(parts[0]).value, ParseOctet(parts[1]).value,
                                            ParseOctet(parts[2]).value, ParseOctet(parts[3]).value]
  {
    var parts := Split(text, '.');
    if |parts| != 4 then None
    else
      match (ParseOctet(parts[0]), ParseOctet(parts[1]), ParseOctet(parts[2]), ParseOctet(parts[3]))
      case (Some(o0), Some(o1), Some(o2), Some(o3)) =>
        OctetsOfFromOctets(o0, o1, o2, o3);
        Some(FromOctets(o0, o1, o2, o3))
      case _ => None
  }

  /** `text` is four canonical decimal numerals separated by dots, whose
      values are `octets`. */
  predicate IsDottedQuad(text: string, octets: seq<nat>) {
    var parts := Split(text, '.');
    |parts| == 4 && |octets| == 4
    && forall i :: 0 <= i < 4 ==> IsCanonical(parts[i]) && DigitsValue(parts[i]) == octets[i]
  }

  /** `str(IPv4Address)`: the four octets in decimal, joined by dots. */
  function FormatAddress(a: Address): (r: string)
    ensures IsDottedQuad(r, Octets(a))
  {
    var t := OctetTexts(a);
    assert forall i :: 0 <= i < 4 ==> '.' !in t[i];
    SplitJoin(t, '.');
    Join(t, '.')
  }

  function OctetTexts(a: Address): (t: seq<string>)
    ensures |t| == 4 && forall i :: 0 <= i < 4 ==> IsCanonical(t[i]) && DigitsValue(t[i]) == Octets(a)[i]
  {
    var o := Octets(a);
    [NatToString(o[0]), NatToString(o[1]), NatToString(o[2]), NatToString(o[3])]
  }

  /** Splitting an address into octets and putting them back together is
      the identity, both ways round. */
  lemma OctetsOfFromOctets(o0: nat, o1: nat, o2: nat, o3: nat)
    requires o0 < 256 && o1 < 256 && o2 < 256 && o3 < 256
    ensures Octets(FromOctets(o0, o1, o2, o3)) == [o0, o1, o2, o3]
  {
    var x := (o0 * 256 + o1) * 256 + o2;
    var a := x * 256 + o3;
    assert a / 256 == x && a % 256 == o3;
    assert x / 256 == o0 * 256 + o1 && x % 256 == o2;
    assert a / 0x1_0000 == x / 256 by { DivDiv(a, 256); }
    assert a / 0x100_0000 == (x / 256) / 256 by { DivDiv(a, 256); DivDiv(a, 0x1_0000); }
  }

  lemma FromOctetsOfOctets(a: Address)
    ensures var o := Octets(a); FromOctets(o[0], o[1], o[2], o[3]) == a
  {
    var x := a / 256;
    var y := x / 256;
    assert a == x * 256 + a % 256;
    assert x == y * 256 + x % 256;
    assert y == (y / 256) * 256 + y % 256;
    assert a / 0x1_0000 == y by { DivDiv(a, 256); }
    assert a / 0x100_0000 == y / 256 by { DivDiv(a, 256); DivDiv(a, 0x1_0000); }
  }

  /** Dividing by `m` and then by 256 is dividing by `256 * m`. */
  lemma DivDiv(a: nat, m: nat)
    requires m == 256 || m == 0x1_0000
    ensures a / (256 * m) == a / m / 256
  {
    var x := a / m;
    var y := x / 256;
    assert a == x * m + a % m;
    assert x == y * 256 + x % 256;
    assert a == y * (256 * m) + ((x % 256) * m + a % m);
    assert (x % 256) * m + a % m < 256 * m;
  }

  /** Printing an address and reading it back gives the same address. */
  lemma ParseFormat(a: Address)
    ensures ParseAddress(FormatAddress(a)) == Some(a)
  {
    var t := OctetTexts(a);
    var o := Octets(a);
    assert forall i :: 0 <= i < 4 ==> '.' !in t[i];
    SplitJoin(t, '.');
    forall i | 0 <= i < 4 ensures ParseOctet(t[i]) == Some(o[i]) {
      assert Pow10(3) == 1000;
      NatToStringWidth(o[i], 3);
    }
    FromOctetsOfOctets(a);
  }

  /** Text that reads as an address is exactly that address's printed form:
      the dotted-quad syntax admits one spelling per address. */
  lemma FormatParse(text: string)
    requires ParseAddress(text).Some?
    ensures FormatAddress(ParseAddress(text).value) == text
  {
    var parts := Split(text, '.');
    var o := [DigitsValue(parts[0]), DigitsValue(parts[1]), DigitsValue(parts[2]), DigitsValue(parts[3])];
    var a := ParseAddress(text).value;
    assert a == FromOctets(o[0], o[1], o[2], o[3]);
    OctetsOfFromOctets(o[0], o[1], o[2], o[3]);
    forall i | 0 <= i < 4 ensures NatToString(o[i]) == parts[i] {
      NatToStringOfValue(parts[i]);
    }
    assert OctetTexts(a) == parts;
    JoinSplit(text, '.');
  }
}
