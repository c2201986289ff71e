/** The part of Python's `ipaddress` module the core relies on, for IPv4:
    strict parsing of a dotted-quad address and of an `address/prefixlen`
    network, and the exploded text of a network.  A network is kept as its
    packed 32-bit network address and its prefix length. */
module Ipv4 {
  import opened Results
  import opened Text
  import opened Arith

  const MaxPrefixlen: nat := 32
  /** The number of IPv4 addresses, 2^32. */
  const AddressSpace: nat := 0x1_0000_0000

  /** The number of addresses in a block with this prefix length. */
  function BlockSize(prefixlen: nat): (r: nat)
    requires prefixlen <= MaxPrefixlen
    ensures r > 0
  {
    Pow(2, MaxPrefixlen - prefixlen)
  }

  lemma AddressSpaceIsPow()
    ensures Pow(2, 32) == AddressSpace
  {
    assert Pow(2, 8) == 256;
    PowAdd(2, 8, 8);
    PowAdd(2, 16, 16);
  }

  lemma BlockSizeBounds(prefixlen: nat)
    requires prefixlen <= MaxPrefixlen
    ensures 1 <= BlockSize(prefixlen) <= AddressSpace
  {
    PowMonotone(MaxPrefixlen - prefixlen, MaxPrefixlen);
    AddressSpaceIsPow();
  }

  /** An IPv4 network: the packed network address and the prefix length. */
  datatype Net = Net(address: nat, prefixlen: nat)

  /** What `ipaddress.ip_network(..., strict=True)` guarantees of its result:
      a prefix length in 0..32, an address below 2^32 and no host bit set
      (the low `32 - prefixlen` bits are zero). */
  predicate ValidNet(n: Net) {
    && n.prefixlen <= MaxPrefixlen
    && n.address < AddressSpace
    && n.address % BlockSize(n.prefixlen) == 0
  }

  function NumAddresses(n: Net): nat
    requires n.prefixlen <= MaxPrefixlen
  {
    BlockSize(n.prefixlen)
  }

  /** Why `ip_network` or `ip_address` refuses its argument. The application
      sees only two messages: `ip_network` and `ip_address` turn both
      AddressValueError and NetmaskValueError into one plain ValueError
      ("does not appear to be an IPv4 or IPv6 network"), and strict mode
      raises "has host bits set". The split between BadAddress and
      BadPrefix is this model's own, kept so the contracts can say which
      part of the text was wrong. */
  datatype NetError =
    | BadAddress    // not a dotted quad of valid octets
    | BadPrefix     // not a decimal prefix length in 0..32
    | HostBitsSet   // strict mode and host bits set

  /** One octet of a dotted quad: one to three ASCII digits, at most 255, and
      no leading zero on a value above 7 (refused as ambiguous octal). */
  function ParseOctet(s: string): (r: Option<nat>)
    ensures r.Some? ==> r.value < 256 && AllDigits(s)
  {
    if |s| == 0 || |s| > 3 || !AllDigits(s) then None
    else if DecimalValue(s) > 7 && s[0] == '0' then None
    else if DecimalValue(s) > 255 then None
    else Some(DecimalValue(s))
  }

  /** `ipaddress.ip_address(s)` for an IPv4 string: the packed address. */
  function ParseAddress(s: string): (r: Option<nat>)
    ensures r.Some? ==> r.value < AddressSpace
  {
    var octets := Split(s, '.');
    if |octets| != 4 then None
    else match (ParseOctet(octets[0]), ParseOctet(octets[1]), ParseOctet(octets[2]), ParseOctet(octets[3]))
      case (Some(o1), Some(o2), Some(o3), Some(o4)) => Some(((o1 * 256 + o2) * 256 + o3) * 256 + o4)
      case _ => None
  }

  /** The exploded dotted-quad text of a packed address. */
  function Exploded(a: nat): string
    requires a < AddressSpace
  {
    var o := Octets(a);
    NatToDecimal(o[0]) + "." + NatToDecimal(o[1]) + "." + NatToDecimal(o[2]) + "." + NatToDecimal(o[3])
  }

  /** The prefix-length part of `address/prefixlen`: decimal digits, at most 32. */
  function ParsePrefix(s: string): (r: Option<nat>)
    ensures r.Some? ==> r.value <= MaxPrefixlen
  {
    if |s| > 0 && AllDigits(s) && DecimalValue(s) <= MaxPrefixlen then Some(DecimalValue(s)) else None
  }

  /** `ipaddress.ip_network(text)` (strict) for IPv4: at most one '/', an
      address, a decimal prefix length that defaults to 32, and no host bits
      set.  The netmask and hostmask forms after the '/' are not accepted. */
  function IpNetwork(text: string): (r: Result<Net, NetError>)
    ensures r.Success? ==> ValidNet(r.value)
  {
    var parts := Split(text, '/');
    if |parts| > 2 then Failure(BadAddress)
    else match ParseAddress(parts[0])
      case None => Failure(BadAddress)
      case Some(address) =>
        var prefixlen := if |parts| == 1 then Some(MaxPrefixlen) else ParsePrefix(parts[1]);
        if prefixlen.None? then Failure(BadPrefix)
        else if address % BlockSize(prefixlen.value) != 0 then Failure(HostBitsSet)
        else Success(Net(address, prefixlen.value))
  }

  /** The exploded text of a network, `a.b.c.d/p`. */
  function CidrText(n: Net): string
    requires n.address < AddressSpace
  {
    Exploded(n.address) + "/" + NatToDecimal(n.prefixlen)
  }

  lemma OctetRoundTrip(o: nat)
    requires o < 256
    ensures ParseOctet(NatToDecimal(o)) == Some(o)
  {
    DecimalRoundTrip(o);
    DecimalLengthBelowThousand(o);
    NoLeadingZero(o);
  }

  lemma DigitsHaveNoSeparator(s: string, sep: char)
    requires AllDigits(s) && !IsDigit(sep)
    ensures sep !in s
  {
  }

  /** The four octets of a packed address, most significant first. */
  function Octets(a: nat): seq<nat> {
    [a / 0x100_0000, a / 0x1_0000 % 256, a / 0x100 % 256, a % 256]
  }

  lemma OctetsRecombine(a: nat)
    requires a < AddressSpace
    ensures forall i :: 0 <= i < 4 ==> Octets(a)[i] < 256
    ensures ((Octets(a)[0] * 256 + Octets(a)[1]) * 256 + Octets(a)[2]) * 256 + Octets(a)[3] == a
  {
  }

  lemma ExplodedSplits(a: nat)
    requires a < AddressSpace
    ensures Split(Exploded(a), '.') == [NatToDecimal(Octets(a)[0]), NatToDecimal(Octets(a)[1]),
                                        NatToDecimal(Octets(a)[2]), NatToDecimal(Octets(a)[3])]
  {
    var o := Octets(a);
    var s1, s2, s3, s4 := NatToDecimal(o[0]), NatToDecimal(o[1]), NatToDecimal(o[2]), NatToDecimal(o[3]);
    DigitsHaveNoSeparator(s1, '.');
    DigitsHaveNoSeparator(s2, '.');
    DigitsHaveNoSeparator(s3, '.');
    DigitsHaveNoSeparator(s4, '.');
    SplitFour(s1, s2, s3, s4, '.');
  }

  /** Reading back the exploded text gives the packed address. */
  lemma AddressRoundTrip(a: nat)
    requires a < AddressSpace
    ensures ParseAddress(Exploded(a)) == Some(a)
  {
    var o := Octets(a);
    ExplodedSplits(a);
    OctetsRecombine(a);
    OctetRoundTrip(o[0]);
    OctetRoundTrip(o[1]);
    OctetRoundTrip(o[2]);
    OctetRoundTrip(o[3]);
  }

  /** Each piece of a split holds only characters of the whole, and every
      character other than the separator lands in some piece. */
  lemma {:induction false} SplitKeepsChars(s: string, sep: char, c: char)
    requires c in s && c != sep
    ensures exists i :: 0 <= i < |Split(s, sep)| && c in Split(s, sep)[i]
  {
    var rest := Split(s[1..], sep);
    if s[0] == c {
      assert c in Split(s, sep)[0];
    } else {
      SplitKeepsChars(s[1..], sep, c);
      var i :| 0 <= i < |rest| && c in rest[i];
      if s[0] == sep {
        assert Split(s, sep)[i + 1] == rest[i];
      } else if i == 0 {
        assert c in Split(s, sep)[0];
      } else {
        assert Split(s, sep)[i] == rest[i];
      }
    }
  }

  /** A parsed address holds only digits and dots. */
  lemma ParsedAddressChars(s: string, c: char)
    requires ParseAddress(s).Some? && c in s
    ensures IsDigit(c) || c == '.'
  {
    if c != '.' {
      SplitKeepsChars(s, '.', c);
      var i :| 0 <= i < |Split(s, '.')| && c in Split(s, '.')[i];
      assert ParseOctet(Split(s, '.')[i]).Some?;
    }
  }

  /** A text that does not start with a digit is no address. */
  lemma NotAnAddress(s: string)
    requires |s| > 0 && !IsDigit(s[0])
    ensures ParseAddress(s) == None
  {
    if ParseAddress(s).Some? {
      ParsedAddressChars(s, s[0]);
    }
  }

  /** Reading back the exploded text of a valid network gives the network. */
  lemma CidrRoundTrip(n: Net)
    requires ValidNet(n)
    ensures IpNetwork(CidrText(n)) == Success(n)
  {
    var a, p := Exploded(n.address), NatToDecimal(n.prefixlen);
    AddressRoundTrip(n.address);
    if '/' in a {
      ParsedAddressChars(a, '/');
    }
    SplitWithoutSeparator(a, '/');
    DigitsHaveNoSeparator(p, '/');
    SplitWithoutSeparator(p, '/');
    SplitAppend(a, '/', p);
    assert Split(CidrText(n), '/') == [a, p];
    DecimalRoundTrip(n.prefixlen);
  }
}
