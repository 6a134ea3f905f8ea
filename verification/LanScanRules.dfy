/** Which LAN scans are allowed: an IPv4 subnet, written as its first address and its prefix length. */
module LanScanRules {
  import opened Wrappers
  import opened Arithmetic

  datatype Net = Net(base: nat, len: nat)

  /** The subnet text of a request, parsed with no host bits allowed. */
  datatype Subnet = BadSubnet | Ipv6Subnet | Ipv4Subnet(net: Net)

  /** An interface as the host lists it. */
  datatype Interface = Unusable | Ipv6Interface | Ipv4Interface(address: nat, len: nat)

  datatype Error =
    | InvalidSubnet | NotRfc1918 | SubnetTooLarge | NoPorts | TooManyPorts | InvalidPort | DuplicatePorts
    | InvalidRateLimit | RateLimitTooHigh | NoMatchingInterface

  const MAX_PORTS := 20
  const MAX_RATE := 100
  const MIN_PREFIX: nat := 24

  function Pow2(n: nat): (p: nat)
    ensures p >= 1
  {
    if n == 0 then 1 else 2 * Pow2(n - 1)
  }

  /** Addresses in a network. */
  function Size(len: nat): (n: nat)
    ensures n >= 1
  {
    if len <= 32 then Pow2(32 - len) else 1
  }

  function Last(n: Net): int { n.base + Size(n.len) - 1 }

  /** First and last address inside. */
  predicate SubnetOf(a: Net, b: Net) { b.base <= a.base && Last(a) <= Last(b) }

  const BLOCKS := [Net(0x0A00_0000, 8), Net(0xAC10_0000, 12), Net(0xC0A8_0000, 16)]

  predicate IsRfc1918(n: Net) { exists i :: 0 <= i < |BLOCKS| && (n == BLOCKS[i] || SubnetOf(n, BLOCKS[i])) }

  function Masked(address: nat, size: nat): (base: nat)
    requires size > 0
    ensures base == address - address % size
  {
    RemainderAtMost(address, size);
    address - address % size
  }

  function InterfaceNet(address: nat, len: nat): Net { Net(Masked(address, Size(len)), len) }

  predicate Covers(i: Interface, n: Net)
  {
    && i.Ipv4Interface? && i.len <= 32
    && (n == InterfaceNet(i.address, i.len) || SubnetOf(n, InterfaceNet(i.address, i.len)))
  }

  predicate MatchesLocalInterface(n: Net, interfaces: seq<Interface>)
  {
    exists k :: 0 <= k < |interfaces| && Covers(interfaces[k], n)
  }

  predicate ValidPorts(ports: seq<int>) { forall i :: 0 <= i < |ports| ==> 1 <= ports[i] <= 65535 }

  predicate Distinct(ports: seq<int>) { forall i, j :: 0 <= i < j < |ports| ==> ports[i] != ports[j] }

  /** `validate_scan_request`, the checks in their order. */
  function Validate(s: Subnet, ports: seq<int>, rate: int, interfaces: seq<Interface>): Result<Net, Error>
  {
    if s.BadSubnet? || s.Ipv6Subnet? then Err(InvalidSubnet)
    else if !IsRfc1918(s.net) then Err(NotRfc1918)
    else if s.net.len < MIN_PREFIX then Err(SubnetTooLarge)
    else if ports == [] then Err(NoPorts)
    else if |ports| > MAX_PORTS then Err(TooManyPorts)
    else if !ValidPorts(ports) then Err(InvalidPort)
    else if |set p | p in ports| != |ports| then Err(DuplicatePorts)
    else if rate <= 0 then Err(InvalidRateLimit)
    else if rate > MAX_RATE then Err(RateLimitTooHigh)
    else if !MatchesLocalInterface(s.net, interfaces) then Err(NoMatchingInterface)
    else Ok(s.net)
  }

  /** `_scan_hosts`: every address of a network of one or two, else all but the network's own and broadcast. */
  function Hosts(n: Net): seq<nat>
  {
    if Size(n.len) <= 2 then seq(Size(n.len), i requires 0 <= i => n.base + i)
    else seq(Size(n.len) - 2, i requires 0 <= i => n.base + 1 + i)
  }

  // ------------------------------------------------------------------ what is accepted

  /** The private address blocks of section 3 of RFC 1918, by their leading octets. */
  predicate Private(address: nat)
  {
    var a, b := address / 0x100_0000, address / 0x1_0000 % 0x100;
    a == 10 || (a == 172 && 16 <= b < 32) || (a == 192 && b == 168)
  }

  /** The address shares the interface's network prefix. */
  predicate OnLink(address: int, i: Interface)
  {
    i.Ipv4Interface? && i.len <= 32 && address / Size(i.len) == i.address / Size(i.len)
  }

  /** A private address on the link of one of these interfaces. */
  predicate Local(address: nat, interfaces: seq<Interface>)
  {
    Private(address) && exists k :: 0 <= k < |interfaces| && OnLink(address, interfaces[k])
  }

  lemma {:induction false} SetOfDistinct(ports: seq<int>)
    ensures |set p | p in ports| <= |ports|
    ensures |set p | p in ports| == |ports| <==> Distinct(ports)
  {
    if ports != [] {
      var init, last := ports[..|ports| - 1], ports[|ports| - 1];
      SetOfDistinct(init);
      assert ports == init + [last];
      assert (set p | p in ports) == (set p | p in init) + {last};
      if last in init {
        assert (set p | p in ports) == (set p | p in init);
        var k :| 0 <= k < |init| && init[k] == last;
        assert ports[k] == ports[|init|];
      } else if Distinct(ports) {
        assert forall i, j :: 0 <= i < j < |init| ==> ports[i] != ports[j];
      }
    }
  }

  lemma PrefixSizes()
    ensures Size(8) == 0x100_0000 && Size(12) == 0x10_0000 && Size(16) == 0x1_0000 && Size(24) == 0x100
  {
    assert Pow2(4) == 16;
    assert Pow2(8) == 256 by { assert Pow2(6) == 64; }
    assert Pow2(12) == 4096 by { assert Pow2(10) == 1024; }
    assert Pow2(16) == 65536 by { assert Pow2(14) == 16384; }
    assert Pow2(20) == 1048576 by { assert Pow2(18) == 262144; }
    assert Pow2(24) == 16777216 by { assert Pow2(22) == 4194304; }
  }

  lemma {:induction false} Pow2Grows(a: nat, b: nat)
    requires a <= b
    ensures Pow2(a) <= Pow2(b)
  {
    if a < b { Pow2Grows(a, b - 1); }
  }

  lemma BlockIsPrivate(h: nat)
    requires 0x0A00_0000 <= h < 0x0B00_0000 || 0xAC10_0000 <= h < 0xAC20_0000 || 0xC0A8_0000 <= h < 0xC0A9_0000
    ensures Private(h)
  {
  }

  lemma InBlock(n: Net, h: nat)
    requires IsRfc1918(n) && n.base <= h <= Last(n)
    ensures Private(h)
  {
    hide Private, Size;
    PrefixSizes();
    var i :| 0 <= i < |BLOCKS| && (n == BLOCKS[i] || SubnetOf(n, BLOCKS[i]));
    assert BLOCKS[i].base <= h <= Last(BLOCKS[i]);
    BlockIsPrivate(h);
  }

  lemma HostsInside(n: Net)
    ensures forall i :: 0 <= i < |Hosts(n)| ==> n.base <= Hosts(n)[i] <= Last(n)
    ensures forall i, j :: 0 <= i < j < |Hosts(n)| ==> Hosts(n)[i] < Hosts(n)[j]
    ensures n.len >= MIN_PREFIX ==> 1 <= |Hosts(n)| <= 254
  {
    hide Size;
    PrefixSizes();
    if n.len >= MIN_PREFIX { SizeAtMost(n.len); }
  }

  lemma SizeAtMost(len: nat)
    requires len >= MIN_PREFIX
    ensures Size(len) <= Size(24)
  {
    if len <= 32 { Pow2Grows(32 - len, 8); }
  }

  /** Accepted requests are exactly those that meet every rule; the network accepted is the one asked for. */
  lemma AcceptedExactly(s: Subnet, ports: seq<int>, rate: int, interfaces: seq<Interface>)
    ensures Validate(s, ports, rate, interfaces).Ok? <==>
            && s.Ipv4Subnet? && s.net.len >= 24
            && (Spans(s.net, 0x0A00_0000, 0x0AFF_FFFF) || Spans(s.net, 0xAC10_0000, 0xAC1F_FFFF)
                || Spans(s.net, 0xC0A8_0000, 0xC0A8_FFFF))
            && 1 <= |ports| <= 20 && (forall i :: 0 <= i < |ports| ==> 1 <= ports[i] <= 65535)
            && (forall i, j :: 0 <= i < j < |ports| ==> ports[i] != ports[j])
            && 1 <= rate <= 100 && AllOnLink(s.net, interfaces)
    ensures Validate(s, ports, rate, interfaces).Ok? ==> Validate(s, ports, rate, interfaces).value == s.net
  {
    hide IsRfc1918, ValidPorts, MatchesLocalInterface, Spans, AllOnLink;
    SetOfDistinct(ports);
    PortsAre(ports);
    if s.Ipv4Subnet? {
      BlocksAre(s.net);
      MatchesAre(s.net, interfaces);
    }
  }

  /** From the first to the last address of the network. */
  predicate Spans(n: Net, low: nat, high: nat) { low <= n.base && Last(n) <= high }

  /** Some interface has both ends of the network, and so all of it, on its link. */
  predicate AllOnLink(n: Net, interfaces: seq<Interface>)
  {
    exists i :: i in interfaces && OnLink(n.base, i) && OnLink(Last(n), i)
  }

  lemma PortsAre(ports: seq<int>)
    ensures ValidPorts(ports) <==> forall i :: 0 <= i < |ports| ==> 1 <= ports[i] <= 65535
  {
  }

  lemma BlocksAre(n: Net)
    ensures IsRfc1918(n) <==>
            || Spans(n, 0x0A00_0000, 0x0AFF_FFFF)
            || Spans(n, 0xAC10_0000, 0xAC1F_FFFF)
            || Spans(n, 0xC0A8_0000, 0xC0A8_FFFF)
  {
    hide Size;
    PrefixSizes();
    assert BLOCKS[0] == Net(0x0A00_0000, 8) && BLOCKS[1] == Net(0xAC10_0000, 12) && BLOCKS[2] == Net(0xC0A8_0000, 16);
  }

  lemma MatchesAre(n: Net, interfaces: seq<Interface>)
    ensures MatchesLocalInterface(n, interfaces) <==> AllOnLink(n, interfaces)
  {
    hide Covers, OnLink;
    forall i | i in interfaces
      ensures Covers(i, n) <==> OnLink(n.base, i) && OnLink(Last(n), i)
    {
      CoversIs(i, n);
    }
    if MatchesLocalInterface(n, interfaces) {
      var k :| 0 <= k < |interfaces| && Covers(interfaces[k], n);
      assert interfaces[k] in interfaces;
    }
  }

  lemma CoversIs(i: Interface, n: Net)
    ensures Covers(i, n) <==> OnLink(n.base, i) && OnLink(Last(n), i)
  {
    hide Size;
    if i.Ipv4Interface? && i.len <= 32 {
      SameBlock(n.base, i.address, Size(i.len));
      SameBlock(Last(n), i.address, Size(i.len));
    }
  }

  lemma SameBlock(x: nat, a: nat, size: nat)
    requires size > 0
    ensures var base := Masked(a, size); base <= x <= base + size - 1 <==> x / size == a / size
  {
    var q, p := a / size, x / size;
    var base := Masked(a, size);
    assert a == size * q + a % size && size * q == q * size && base == q * size;
    assert x == size * p + x % size && size * p == p * size;
    if base <= x <= base + size - 1 { QuotientIs(x, size, q); }
  }

  /** The hosts scanned: every address of the network, but for a network of more than two its own and its broadcast. */
  lemma HostsExactly(n: Net, x: nat)
    requires n.len <= 32
    ensures x in Hosts(n) <==> n.base <= x <= Last(n) && (n.len >= 31 || (x != n.base && x != Last(n)))
  {
    hide Size;
    SmallSizes(n.len);
    if n.base <= x <= Last(n) {
      var i := if n.len >= 31 then x - n.base else x - n.base - 1;
      if 0 <= i < |Hosts(n)| { assert Hosts(n)[i] == x; }
    }
  }

  lemma SmallSizes(len: nat)
    requires len <= 32
    ensures Size(len) <= 2 <==> len >= 31
  {
    if len <= 30 { Pow2Grows(2, 32 - len); }
  }

  /** Every host of an accepted scan is a private address on one of the machine's own links, and there are at most
      254 of them. */
  lemma AcceptedHostsAreLocal(s: Subnet, ports: seq<int>, rate: int, interfaces: seq<Interface>)
    requires Validate(s, ports, rate, interfaces).Ok?
    ensures var hosts := Hosts(Validate(s, ports, rate, interfaces).value);
            1 <= |hosts| <= 254 && forall i :: 0 <= i < |hosts| ==> Local(hosts[i], interfaces)
  {
    hide IsRfc1918, ValidPorts, Distinct, Size, Private, OnLink, Hosts;
    var n := s.net;
    HostsInside(n);
    var k :| 0 <= k < |interfaces| && Covers(interfaces[k], n);
    forall i | 0 <= i < |Hosts(n)|
      ensures Local(Hosts(n)[i], interfaces)
    {
      InBlock(n, Hosts(n)[i]);
      CoveredIsOnLink(interfaces[k], n, Hosts(n)[i]);
    }
  }

  lemma CoveredIsOnLink(i: Interface, n: Net, h: nat)
    requires Covers(i, n) && n.base <= h <= Last(n)
    ensures OnLink(h, i)
  {
    hide Size;
    SameBlock(h, i.address, Size(i.len));
  }
}
