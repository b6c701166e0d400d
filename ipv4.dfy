/** IPv4 addresses and CIDR blocks as the `ipaddress` library of Python
    3.9.5 and later (and 3.8.12 and later) reads, writes and compares them
    (CIDR notation as in section 3.1 of RFC 4632). An address is a 32-bit
    number; a block is a base address and a prefix length; parsing is
    strict: an octet is 1 to 3 ASCII digits without a leading zero and at
    most 255, and a block whose base has host bits set is refused. Earlier
    versions accepted a leading zero on an octet, which this module does
    not model. */
module Ipv4 {
  import opened Basics
  import opened Text

  const AddressSpace: nat := 0x1_0000_0000

  type Address = a: int | 0 <= a < 0x1_0000_0000

  function Pow2(k: nat): (r: nat)
    ensures r >= 1
  {
    if k == 0 then 1 else 2 * Pow2(k - 1)
  }

  lemma {:induction false} Pow2Add(a: nat, b: nat)
    ensures Pow2(a + b) == Pow2(a) * Pow2(b)
    decreases a
  {
    if a > 0 {
      Pow2Add(a - 1, b);
      assert Pow2(a + b) == 2 * Pow2(a - 1 + b);
    }
  }

  /** Number of addresses in a block with this prefix length
      (num_addresses). */
  function BlockSize(prefix: nat): (r: nat)
    requires prefix <= 32
    ensures r >= 1
  {
    Pow2(32 - prefix)
  }

  lemma Pow2ThirtyTwo()
    ensures Pow2(32) == AddressSpace
  {
    assert Pow2(4) == 16;
    Pow2Add(4, 4);
    Pow2Add(8, 8);
    Pow2Add(16, 16);
  }

  lemma BlockSizeTimesBlocks(prefix: nat)
    requires prefix <= 32
    ensures BlockSize(prefix) * Pow2(prefix) == AddressSpace
  {
    Pow2Add(32 - prefix, prefix);
    Pow2ThirtyTwo();
  }

  /** The netmask: `prefix` one bits followed by zero bits. */
  function Netmask(prefix: nat): Address
    requires prefix <= 32
  {
    BlockSizeTimesBlocks(prefix);
    AddressSpace - BlockSize(prefix)
  }

  /** a & netmask: the address with its host bits cleared. */
  function MaskOff(a: Address, prefix: nat): Address
    requires prefix <= 32
  {
    ModAtMost(a, BlockSize(prefix));
    a - a % BlockSize(prefix)
  }

  lemma ModAtMost(a: nat, b: nat)
    requires b > 0
    ensures 0 <= a % b <= a
  {
    if a < b {
      DivModUnique(a, b, 0, a);
    }
  }

  /** A CIDR block. */
  datatype Network = Network(base: Address, prefix: nat)

  /** A block as the strict parser builds it: prefix at most 32 and no host
      bits set in the base address. */
  predicate Valid(n: Network) {
    n.prefix <= 32 && n.base % BlockSize(n.prefix) == 0
  }

  /** `address in network`: the address with the block's host bits cleared
      is the block's base. */
  predicate Contains(n: Network, a: Address)
    requires n.prefix <= 32
  {
    MaskOff(a, n.prefix) == n.base
  }

  lemma MulMonotone(b: int, x: int, y: int)
    requires b >= 0 && x <= y
    ensures b * x <= b * y
  {
  }

  /** Euclidean division is unique. */
  lemma DivModUnique(a: int, b: int, q: int, r: int)
    requires b > 0 && 0 <= r < b && a == b * q + r
    ensures a / b == q && a % b == r
  {
    var q', r' := a / b, a % b;
    assert a == b * q' + r';
    assert q <= q' by {
      if q > q' { MulMonotone(b, q' + 1, q); }
    }
    assert q' <= q by {
      if q' > q { MulMonotone(b, q + 1, q'); }
    }
  }

  /** A valid block ends inside the address space. */
  lemma BlockEnd(n: Network)
    requires Valid(n)
    ensures n.base + BlockSize(n.prefix) <= AddressSpace
  {
    BlockSizeTimesBlocks(n.prefix);
    AlignedBlockEnd(n.base, BlockSize(n.prefix), Pow2(n.prefix));
  }

  lemma AlignedBlockEnd(base: int, bs: int, blocks: int)
    requires bs >= 1 && blocks >= 1 && bs * blocks == AddressSpace
    requires 0 <= base < AddressSpace && base % bs == 0
    ensures base + bs <= AddressSpace
  {
    var q := base / bs;
    assert base == bs * q;
    assert q < blocks by {
      if q >= blocks { MulMonotone(bs, blocks, q); }
    }
    MulMonotone(bs, q + 1, blocks);
  }

  /** The broadcast address: the base with every host bit set. */
  function Broadcast(n: Network): (b: Address)
    requires Valid(n)
    ensures n.base <= b
  {
    BlockEnd(n);
    n.base + BlockSize(n.prefix) - 1
  }

  /** An address lies in a valid block exactly when it is between the
      block's base and its broadcast address. */
  lemma ContainsRange(n: Network, a: Address)
    requires Valid(n)
    ensures Contains(n, a) <==> n.base <= a <= Broadcast(n)
  {
    var bs := BlockSize(n.prefix);
    if n.base <= a <= Broadcast(n) {
      var q := n.base / bs;
      assert n.base == bs * q;
      DivModUnique(a, bs, q, a - n.base);
    }
  }

  // ---------------------------------------------------------------------
  // address text
  // ---------------------------------------------------------------------

  /** One dotted-quad octet: 1 to 3 ASCII digits, no leading zero, at most
      255. */
  function ParseOctet(s: string): (r: Result<nat>)
    ensures r.Ok? ==> r.value < 256 && Canonical(s) && DecimalValue(s) == r.value
  {
    if s == [] || !AllDigits(s) || |s| > 3 then Err(BadAddress)
    else if s != "0" && s[0] == '0' then Err(BadAddress)
    else if DecimalValue(s) > 255 then Err(BadAddress)
    else Ok(DecimalValue(s))
  }

  function FromOctets(o0: nat, o1: nat, o2: nat, o3: nat): Address
    requires o0 < 256 && o1 < 256 && o2 < 256 && o3 < 256
  {
    ((o0 * 256 + o1) * 256 + o2) * 256 + o3
  }

  /** The four octets of an address, most significant first. */
  function Octets(a: Address): (o: seq<nat>)
    ensures |o| == 4 && forall k :: 0 <= k < 4 ==> o[k] < 256
  {
    var q1 := a / 256;
    var q2 := q1 / 256;
    [q2 / 256, q2 % 256, q1 % 256, a % 256]
  }

  /** IPv4Address(text): exactly four '.'-separated octets. */
  function ParseAddress(s: string): Result<Address> {
    var parts := Split(s, '.');
    if |parts| != 4 then Err(BadAddress)
    else
      var o0 :- ParseOctet(parts[0]);
      var o1 :- ParseOctet(parts[1]);
      var o2 :- ParseOctet(parts[2]);
      var o3 :- ParseOctet(parts[3]);
      Ok(FromOctets(o0, o1, o2, o3))
  }

  /** An address text whose last piece is not an octet does not parse. */
  lemma LastOctetMustParse(s: string)
    requires var parts := Split(s, '.'); ParseOctet(parts[|parts| - 1]).Err?
    ensures ParseAddress(s).Err?
  {
  }

  /** str(IPv4Address): the four octets in decimal, joined by '.'. */
  function FormatAddress(a: Address): string {
    var o := Octets(a);
    Join([NatToDecimal(o[0]), NatToDecimal(o[1]), NatToDecimal(o[2]), NatToDecimal(o[3])], '.')
  }

  lemma OctetsFromOctets(o0: nat, o1: nat, o2: nat, o3: nat)
    requires o0 < 256 && o1 < 256 && o2 < 256 && o3 < 256
    ensures Octets(FromOctets(o0, o1, o2, o3)) == [o0, o1, o2, o3]
  {
    var a := FromOctets(o0, o1, o2, o3);
    DivModUnique(a, 256, (o0 * 256 + o1) * 256 + o2, o3);
    DivModUnique((o0 * 256 + o1) * 256 + o2, 256, o0 * 256 + o1, o2);
    DivModUnique(o0 * 256 + o1, 256, o0, o1);
  }

  lemma FromOctetsOfOctets(a: Address)
    ensures var o := Octets(a); FromOctets(o[0], o[1], o[2], o[3]) == a
  {
  }

  lemma OctetRoundTrip(o: nat)
    requires o < 256
    ensures ParseOctet(NatToDecimal(o)) == Ok(o)
  {
    var t := NatToDecimal(o);
    SmallDecimalLength(o);
  }

  lemma DecimalHasNoSeparator(n: nat, sep: char)
    requires !IsDigit(sep)
    ensures sep !in NatToDecimal(n)
  {
  }

  function OctetTexts(a: Address): seq<string> {
    var o := Octets(a);
    [NatToDecimal(o[0]), NatToDecimal(o[1]), NatToDecimal(o[2]), NatToDecimal(o[3])]
  }

  lemma SplitFormatAddress(a: Address)
    ensures Split(FormatAddress(a), '.') == OctetTexts(a)
  {
    var o := Octets(a);
    var parts := OctetTexts(a);
    forall k | 0 <= k < 4 ensures '.' !in parts[k] {
      DecimalHasNoSeparator(o[k], '.');
    }
    SplitJoin(parts, '.');
  }

  /** Writing an address and parsing it back gives the address. */
  lemma AddressRoundTrip(a: Address)
    ensures ParseAddress(FormatAddress(a)) == Ok(a)
  {
    var o := Octets(a);
    SplitFormatAddress(a);
    OctetRoundTrip(o[0]);
    OctetRoundTrip(o[1]);
    OctetRoundTrip(o[2]);
    OctetRoundTrip(o[3]);
    FromOctetsOfOctets(a);
  }

  /** Strict parsing accepts only the canonical text of an address: what it
      accepts is exactly what str() writes back. */
  lemma AddressCanonical(s: string, a: Address)
    requires ParseAddress(s) == Ok(a)
    ensures FormatAddress(a) == s
  {
    var parts := Split(s, '.');
    var o0 := ParseOctet(parts[0]).value;
    var o1 := ParseOctet(parts[1]).value;
    var o2 := ParseOctet(parts[2]).value;
    var o3 := ParseOctet(parts[3]).value;
    assert a == FromOctets(o0, o1, o2, o3);
    OctetsFromOctets(o0, o1, o2, o3);
    DecimalCanonical(parts[0]);
    DecimalCanonical(parts[1]);
    DecimalCanonical(parts[2]);
    DecimalCanonical(parts[3]);
    assert OctetTexts(a) == parts;
  }

  // ---------------------------------------------------------------------
  // block text
  // ---------------------------------------------------------------------

  /** The first prefix length from `p` on whose netmask is `m`. */
  function SearchPrefix(m: Address, p: nat): (r: Option<nat>)
    requires p <= 33
    ensures r.Some? ==> p <= r.value <= 32 && Netmask(r.value) == m
    ensures r.None? ==> forall q :: p <= q <= 32 ==> Netmask(q) != m
    decreases 33 - p
  {
    if p > 32 then None
    else if Netmask(p) == m then Some(p)
    else SearchPrefix(m, p + 1)
  }

  /** The text after '/' as IPv4Network reads it: a decimal prefix length
      of at most 32, otherwise a netmask in dotted-quad form, otherwise a
      hostmask (the netmask with every bit flipped). */
  function ParsePrefix(t: string): (r: Result<nat>)
    ensures r.Ok? ==> r.value <= 32
  {
    if t != [] && AllDigits(t) && DecimalValue(t) <= 32 then Ok(DecimalValue(t))
    else
      match ParseAddress(t)
      case Err(_) => Err(BadNetmask)
      case Ok(m) =>
        match SearchPrefix(m, 0)
        case Some(p) => Ok(p)
        case None =>
          match SearchPrefix(AddressSpace - 1 - m, 0)
          case Some(p) => Ok(p)
          case None => Err(BadNetmask)
  }

  /** IPv4Network(text, strict=True): an address, optionally '/' and a
      prefix (32 when absent); refused when the base has host bits set. */
  function ParseNetwork(s: string): (r: Result<Network>)
    ensures r.Ok? ==> Valid(r.value)
  {
    var parts := Split(s, '/');
    if |parts| > 2 then Err(BadAddress)
    else
      var base :- ParseAddress(parts[0]);
      var prefix :- if |parts| == 2 then ParsePrefix(parts[1]) else Ok(32);
      if base % BlockSize(prefix) != 0 then Err(HostBitsSet)
      else Ok(Network(base, prefix))
  }

  /** str(IPv4Network): base address, '/', prefix length. */
  function FormatNetwork(n: Network): string {
    FormatAddress(n.base) + "/" + NatToDecimal(n.prefix)
  }

  lemma SplitFormatNetwork(a: Address, p: nat)
    ensures Split(FormatAddress(a) + "/" + NatToDecimal(p), '/') == [FormatAddress(a), NatToDecimal(p)]
  {
    var addr, len := FormatAddress(a), NatToDecimal(p);
    DecimalHasNoSeparator(p, '/');
    FormatAddressAvoids(a, '/');
    assert Join([addr, len], '/') == addr + "/" + len;
    SplitJoin([addr, len], '/');
  }

  /** A written address holds only digits and dots. */
  lemma FormatAddressAvoids(a: Address, c: char)
    requires !IsDigit(c) && c != '.'
    ensures c !in FormatAddress(a)
  {
    var o := Octets(a);
    forall k | 0 <= k < 4 ensures c !in OctetTexts(a)[k] {
      DecimalHasNoSeparator(o[k], c);
    }
    JoinAvoids(OctetTexts(a), '.', c);
  }

  lemma {:induction false} JoinAvoids(parts: seq<string>, sep: char, c: char)
    requires |parts| >= 1 && sep != c
    requires forall k :: 0 <= k < |parts| ==> c !in parts[k]
    ensures c !in Join(parts, sep)
  {
    if |parts| > 1 {
      JoinAvoids(parts[1..], sep, c);
    }
  }

  /** Writing a valid block and parsing it back gives the block. */
  lemma NetworkRoundTrip(n: Network)
    requires Valid(n)
    ensures ParseNetwork(FormatNetwork(n)) == Ok(n)
  {
    SplitFormatNetwork(n.base, n.prefix);
    AddressRoundTrip(n.base);
    var t := NatToDecimal(n.prefix);
    assert ParsePrefix(t) == Ok(n.prefix);
  }

  /** An address text is refused with the one address error. */
  lemma ParseAddressErrors(s: string)
    ensures ParseAddress(s).Err? ==> ParseAddress(s).error == BadAddress
  {
  }

  /** A prefix text is refused with the one netmask error. */
  lemma ParsePrefixErrors(t: string)
    ensures ParsePrefix(t).Err? ==> ParsePrefix(t).error == BadNetmask
  {
  }

  /** The strict network parser raises only ValueErrors: a bad address, a
      bad prefix or host bits set. */
  lemma ParseNetworkErrors(s: string)
    ensures ParseNetwork(s).Err? ==> IsValueError(ParseNetwork(s).error)
  {
    var parts := Split(s, '/');
    ParseAddressErrors(parts[0]);
    if |parts| == 2 {
      ParsePrefixErrors(parts[1]);
    }
  }

  /** The strict parser refuses a block written with host bits set. */
  lemma StrictRejectsHostBits(a: Address, p: nat)
    requires p <= 32 && a % BlockSize(p) != 0
    ensures ParseNetwork(FormatAddress(a) + "/" + NatToDecimal(p)) == Err(HostBitsSet)
  {
    SplitFormatNetwork(a, p);
    AddressRoundTrip(a);
    assert ParsePrefix(NatToDecimal(p)) == Ok(p);
  }

  // ---------------------------------------------------------------------
  // the figures shown for a subnet
  // ---------------------------------------------------------------------

  /** str(num_addresses - 2) + " nodes". */
  function SizeText(n: Network): string
    requires n.prefix <= 32
  {
    IntToDecimal(BlockSize(n.prefix) - 2) + " nodes"
  }

  /** The size figure of a /32 is negative: the count subtracts two however
      small the block is. */
  lemma SizeOfHostBlock(a: Address)
    ensures SizeText(Network(a, 32)) == "-1 nodes"
  {
    assert BlockSize(32) == 1;
    assert NatToDecimal(1) == "1";
  }

  /** The size figure of a /31 is zero. */
  lemma SizeOfPairBlock(a: Address)
    ensures SizeText(Network(a, 31)) == "0 nodes"
  {
    assert BlockSize(31) == 2;
    assert NatToDecimal(0) == "0";
  }

  /** A /24 has 254 usable hosts. */
  lemma SizeOfClassCBlock(a: Address)
    ensures SizeText(Network(a, 24)) == "254 nodes"
  {
    assert BlockSize(24) == Pow2(8) == 256;
    assert NatToDecimal(25) == NatToDecimal(2) + [DigitChar(5)];
    assert NatToDecimal(254) == NatToDecimal(25) + [DigitChar(4)];
  }

  /** The all-addresses block contains every address. */
  lemma DefaultRouteContainsAll(a: Address)
    ensures Contains(Network(0, 0), a)
  {
    var bs := BlockSize(0);
    assert bs == AddressSpace by { BlockSizeTimesBlocks(0); }
    DivModUnique(a, bs, 0, a);
  }

  /** The all-addresses block "0.0.0.0/0" parses to base 0, prefix 0. */
  lemma DefaultRouteParses()
    ensures ParseNetwork("0.0.0.0/0") == Ok(Network(0, 0))
  {
    DefaultRouteText();
    NetworkRoundTrip(Network(0, 0));
  }

  lemma DefaultRouteText()
    ensures FormatNetwork(Network(0, 0)) == "0.0.0.0/0"
  {
    assert Octets(0) == [0, 0, 0, 0];
    assert NatToDecimal(0) == "0";
    assert Join(["0", "0", "0", "0"], '.') == "0.0.0.0" by {
      assert Join(["0"], '.') == "0";
      assert Join(["0", "0"], '.') == "0.0";
      assert Join(["0", "0", "0"], '.') == "0.0.0";
    }
    assert FormatAddress(0) == "0.0.0.0";
  }
}
