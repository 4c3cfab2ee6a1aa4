/** IPv4 addresses and networks in prefix notation (section 3.1 of RFC 4632):
    a network is a base address and a prefix length, its block holds
    2^(32 - prefix) consecutive addresses, and the hosts of a network are the
    addresses the standard library's `hosts()` enumerates. */
module Ipv4 {
  import opened Results

  /** Number of IPv4 addresses, 2^32. */
  const AddressSpace: nat := 0x1_0000_0000

  /** An IPv4 address as its unsigned 32-bit integer value. */
  type Addr = n: nat | n < AddressSpace

  function Pow2(n: nat): (r: nat)
    ensures r >= 1
  {
    if n == 0 then 1 else 2 * Pow2(n - 1)
  }

  lemma {:induction false} Pow2Add(a: nat, b: nat)
    ensures Pow2(a + b) == Pow2(a) * Pow2(b)
    decreases a
  {
    if a > 0 {
      Pow2Add(a - 1, b);
      assert Pow2(a + b) == 2 * Pow2(a - 1 + b);
    }
  }

  lemma {:induction false} Pow2AtLeastFour(n: nat)
    requires n >= 2
    ensures Pow2(n) >= 4
    decreases n
  {
    if n > 2 {
      Pow2AtLeastFour(n - 1);
    }
  }

  lemma Pow2Bits()
    ensures Pow2(32) == AddressSpace
  {
    assert Pow2(2) == 4;
    Pow2Add(2, 2);
    Pow2Add(4, 4);
    Pow2Add(8, 8);
    Pow2Add(16, 16);
  }

  /** An address/prefix pair as read from "a.b.c.d/n", before the strict
      network check. */
  datatype Cidr = Cidr(address: Addr, prefix: nat)

  /** A network: its base (network) address and its prefix length. */
  datatype Network = Network(base: Addr, prefix: nat)

  /** Number of addresses in a block with the given prefix length. */
  function BlockSize(prefix: nat): nat
    requires prefix <= 32
  {
    Pow2(32 - prefix)
  }

  /** A network is valid when the prefix fits in 32 bits and every host bit
      of the base address is zero. */
  predicate Valid(net: Network)
  {
    net.prefix <= 32 && net.base % BlockSize(net.prefix) == 0
  }

  /** The check `ip_network` applies with its default `strict=True` once the
      text has been read as an address/prefix pair. A prefix beyond 32 makes
      both the IPv4 and the IPv6 constructor refuse the text, so `ip_network`
      raises the same generic error as for unreadable text. A prefix that fits
      but leaves host bits set raises the host-bits error. */
  function Strict(c: Cidr): (r: Result<Network>)
    ensures r.Ok? <==> Valid(Network(c.address, c.prefix))
    ensures r.Ok? ==> r.value == Network(c.address, c.prefix)
    ensures r.Err? ==> (r.error == Unparsable <==> c.prefix > 32)
    ensures r.Err? ==> r.error in {Unparsable, HostBitsSet}
  {
    if c.prefix > 32 then Err(Unparsable)
    else if c.address % BlockSize(c.prefix) != 0 then Err(HostBitsSet)
    else Ok(Network(c.address, c.prefix))
  }

  /** Inside a network's block, the strict check accepts the network address
      and nothing else: every other address of the block has a host bit set. */
  lemma {:induction false} StrictAcceptsOnlyNetworkAddress(net: Network, a: Addr)
    requires Valid(net) && Contains(net, a)
    ensures Strict(Cidr(a, net.prefix)).Ok? <==> a == net.base
    ensures a != net.base ==> Strict(Cidr(a, net.prefix)) == Err(HostBitsSet)
  {
    var size := BlockSize(net.prefix);
    var q := net.base / size;
    assert net.base == size * q;
    ModOfQuotient(a, size, q, a - net.base);
  }

  /** `ipaddress.ip_network(text)` for IPv4 text: the textual reading is the
      parameter `lex`, the strict check is modelled. The host-bits error is
      the only one that is not the generic "not a network" error. */
  function IpNetwork(text: string, lex: string -> Option<Cidr>): (r: Result<Network>)
    ensures r.Ok? ==> Valid(r.value)
    ensures r.Ok? <==> lex(text).Some? && Valid(Network(lex(text).value.address, lex(text).value.prefix))
    ensures r == Err(HostBitsSet) <==>
              lex(text).Some? && lex(text).value.prefix <= 32 && !Valid(Network(lex(text).value.address, lex(text).value.prefix))
    ensures r.Err? && r.error != HostBitsSet ==> r.error == Unparsable
    ensures lex(text).None? ==> r == Err(Unparsable)
  {
    match lex(text)
    case None => Err(Unparsable)
    case Some(c) => Strict(c)
  }

  /** A valid network's block lies wholly inside the address space. */
  lemma BlockFits(net: Network)
    requires Valid(net)
    ensures net.base + BlockSize(net.prefix) <= AddressSpace
  {
    Pow2Add(32 - net.prefix, net.prefix);
    Pow2Bits();
    AlignedBlockBelow(net.base, BlockSize(net.prefix), Pow2(net.prefix));
  }

  /** A multiple of s below s * m leaves room for a whole block of s. */
  lemma AlignedBlockBelow(x: nat, s: nat, m: nat)
    requires s >= 1 && x % s == 0 && x < s * m
    ensures x + s <= s * m
  {
    var k := x / s;
    assert x == s * k;
    if k >= m {
      MulMonotone(s, m, k);
    }
    MulMonotone(s, k + 1, m);
    assert s * (k + 1) == s * k + s;
  }

  lemma MulMonotone(s: nat, a: nat, b: nat)
    requires a <= b
    ensures s * a <= s * b
  {
    assert s * b == s * a + s * (b - a);
  }

  /** The broadcast address: the last address of the block, the one whose
      host bits are all set. */
  function Broadcast(net: Network): (r: Addr)
    requires Valid(net)
    ensures net.base <= r
    ensures r - net.base + 1 == BlockSize(net.prefix)
    ensures r % BlockSize(net.prefix) == BlockSize(net.prefix) - 1
  {
    BlockFits(net);
    LastOfBlock(net.base, BlockSize(net.prefix));
    net.base + BlockSize(net.prefix) - 1
  }

  /** The last address of an aligned block has every bit below the block
      size set. */
  lemma LastOfBlock(base: nat, size: nat)
    requires size >= 1 && base % size == 0
    ensures (base + size - 1) % size == size - 1
  {
    var q := base / size;
    assert base == size * q;
    ModOfQuotient(base + size - 1, size, q, size - 1);
  }

  /** Euclidean division is unique: y = size * q + rem with rem below size
      fixes the remainder. */
  lemma ModOfQuotient(y: nat, size: nat, q: nat, rem: nat)
    requires size >= 1 && rem < size && y == size * q + rem
    ensures y % size == rem
  {
    var q2 := y / size;
    assert y == size * q2 + y % size;
    if q2 > q {
      assert size * (q + 1) == size * q + size;
      MulMonotone(size, q + 1, q2);
    } else if q2 < q {
      assert size * (q2 + 1) == size * q2 + size;
      MulMonotone(size, q2 + 1, q);
    }
  }

  /** `a in network`: the address lies in the network's block. */
  predicate Contains(net: Network, a: nat)
    requires Valid(net)
  {
    net.base <= a <= Broadcast(net)
  }

  /** What `hosts()` means: every address of the block, except that for
      prefixes up to 30 the network and broadcast addresses are not hosts.
      A /31 has two hosts (RFC 3021) and a /32 has its one address. */
  predicate IsHost(net: Network, a: nat)
    requires Valid(net)
  {
    Contains(net, a) && (net.prefix <= 30 ==> a != net.base && a != Broadcast(net))
  }

  predicate StrictlyIncreasing(s: seq<nat>)
  {
    forall i, j :: 0 <= i < j < |s| ==> s[i] < s[j]
  }

  /** The addresses lo, lo + 1, ..., hi - 1. */
  function Range(lo: nat, hi: nat): (r: seq<Addr>)
    requires lo <= hi <= AddressSpace
    ensures |r| == hi - lo
    ensures forall i :: 0 <= i < |r| ==> r[i] == lo + i
  {
    seq(hi - lo, i requires 0 <= i < hi - lo => (lo + i) as Addr)
  }

  lemma RangeExtend(lo: nat, hi: nat)
    requires lo <= hi < AddressSpace
    ensures Range(lo, hi + 1) == Range(lo, hi) + [hi as Addr]
  {
  }

  lemma RangeSplit(lo: nat, mid: nat, hi: nat)
    requires lo <= mid <= hi <= AddressSpace
    ensures Range(lo, hi) == Range(lo, mid) + Range(mid, hi)
  {
  }

  /** First address `hosts()` yields. */
  function FirstHost(net: Network): (r: nat)
    requires Valid(net)
  {
    if net.prefix <= 30 then net.base + 1 else net.base
  }

  /** One past the last address `hosts()` yields. */
  function EndHost(net: Network): (r: nat)
    requires Valid(net)
    ensures FirstHost(net) <= r <= AddressSpace
  {
    BlockFits(net);
    if net.prefix <= 30 then
      Pow2AtLeastFour(32 - net.prefix);
      Broadcast(net)
    else
      Broadcast(net) + 1
  }

  /** `network.hosts()`: the hosts of the network, ascending. */
  function Hosts(net: Network): (r: seq<Addr>)
    requires Valid(net)
    ensures StrictlyIncreasing(r)
    ensures forall a: Addr :: a in r <==> IsHost(net, a)
    ensures |r| == if net.prefix <= 30 then BlockSize(net.prefix) - 2 else BlockSize(net.prefix)
  {
    var r := Range(FirstHost(net), EndHost(net));
    assert forall a: Addr :: IsHost(net, a) ==> a in r by {
      forall a: Addr | IsHost(net, a)
        ensures a in r
      {
        assert r[a - FirstHost(net)] == a;
      }
    }
    r
  }

  /** For prefixes up to 30 the network address and the broadcast address
      are never hosts. */
  lemma NetworkAndBroadcastExcluded(net: Network)
    requires Valid(net) && net.prefix <= 30
    ensures net.base !in Hosts(net)
    ensures Broadcast(net) !in Hosts(net)
    ensures forall a :: a in Hosts(net) ==> net.base < a < Broadcast(net)
  {
  }

  /** A /31 has both of its addresses as hosts (RFC 3021) and a /32 has its
      single address. */
  lemma HostsOfTinyNetworks(net: Network)
    requires Valid(net) && net.prefix >= 31
    ensures net.prefix == 31 ==> Hosts(net) == [net.base, net.base + 1]
    ensures net.prefix == 32 ==> Hosts(net) == [net.base]
  {
    assert Pow2(1) == 2;
  }
}
