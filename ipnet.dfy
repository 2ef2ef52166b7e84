/**
 * The parts of the `ipnet` crate that `calculate_all_ips` relies on: a parsed
 * network, its network and broadcast addresses, and the range `hosts()`
 * walks. Addresses are numbers below 2^32 (IPv4) or 2^128 (IPv6).
 */
module IpNet {
  import opened Numerals
  import opened Wrappers

  datatype Family = V4 | V6

  /** The bit width of an address of the family. */
  function Width(f: Family): nat
  {
    match f
    case V4 => 32
    case V6 => 128
  }

  /** How many addresses the family has. */
  function Space(f: Family): (r: nat)
    ensures r == Pow(2, Width(f))
  {
    PowersOfTwo();
    match f
    case V4 => 0x1_0000_0000
    case V6 => 0x1_0000_0000_0000_0000_0000_0000_0000_0000
  }

  /** Rust's `IpAddr`: an IPv4 or IPv6 address as its number. */
  datatype IpAddr = IpAddr(family: Family, bits: nat)

  type Ip = a: IpAddr | a.bits < Space(a.family) witness IpAddr(V4, 0)

  /**
   * `ipnet::IpNet`: the address as it was written, host bits included, and
   * the prefix length.
   */
  datatype IpNetwork = IpNetwork(family: Family, addr: nat, prefix: nat)

  /** A parsed network always has an address of its family and a prefix no longer than its width. */
  type Net = n: IpNetwork | n.addr < Space(n.family) && n.prefix <= Width(n.family)
    witness IpNetwork(V4, 0, 0)

  function HostBits(n: Net): nat
  {
    Width(n.family) - n.prefix
  }

  /** The number of addresses in the block, 2^(width - prefix). */
  function BlockSize(n: Net): (r: nat)
    ensures r > 0
    ensures n.prefix < Width(n.family) ==> r >= 2
    ensures n.prefix == Width(n.family) ==> r == 1
  {
    Pow(2, HostBits(n))
  }

  /** Whether `a` agrees with the network's address on the top `prefix` bits. */
  predicate InBlock(n: Net, a: nat)
  {
    a / BlockSize(n) == n.addr / BlockSize(n)
  }

  /** `network()`: the address with its host bits masked off. */
  function NetworkAddr(n: Net): (r: nat)
    ensures r <= n.addr < r + BlockSize(n)
    ensures r + BlockSize(n) <= Space(n.family)
    ensures InBlock(n, r)
    ensures r % BlockSize(n) == 0
  {
    var b := BlockSize(n);
    PowAdd(2, n.prefix, HostBits(n));
    FloorBlock(n.addr, b, Pow(2, n.prefix));
    RoundDown(n.addr, b)
  }

  /** `broadcast()`: the address with every host bit set. */
  function BroadcastAddr(n: Net): (r: nat)
    ensures NetworkAddr(n) <= r < Space(n.family)
    ensures (r + 1) % BlockSize(n) == 0
  {
    NextMultiple(NetworkAddr(n), BlockSize(n));
    NetworkAddr(n) + BlockSize(n) - 1
  }

  /** The block is exactly the addresses from the network address to the broadcast address. */
  lemma InBlockRange(n: Net, a: nat)
    ensures InBlock(n, a) <==> NetworkAddr(n) <= a <= BroadcastAddr(n)
  {
    var b := BlockSize(n);
    var q := n.addr / b;
    assert NetworkAddr(n) == q * b;
    if NetworkAddr(n) <= a <= BroadcastAddr(n) {
      DivUnique(a, b, q);
    }
    if InBlock(n, a) {
      DivMod(a, b);
    }
  }

  /**
   * The inclusive range `Ipv4AddrRange`/`Ipv6AddrRange` iterate: `start` up
   * to `end`, and nothing once `start` has passed `end`.
   */
  datatype AddrRange = AddrRange(start: nat, end: nat) {

    function Elements(): (s: seq<nat>)
      ensures |s| == if start <= end then end - start + 1 else 0
    {
      if start <= end then seq(end - start + 1, i => start + i) else []
    }

    /** One step of the iterator: the element it yields and the range left. */
    function Next(): (Option<nat>, AddrRange)
    {
      if start < end then (Some(start), AddrRange(start + 1, end))
      else if start == end then (Some(start), AddrRange(1, 0))
      else (None, this)
    }

    /** `Iterator::last` of the range. */
    function Last(): Option<nat>
    {
      if start <= end then Some(end) else None
    }
  }

  /** The range contains exactly the numbers from `start` to `end`. */
  lemma InElements(r: AddrRange, a: nat)
    ensures a in r.Elements() <==> r.start <= a <= r.end
  {
    if r.start <= a <= r.end {
      assert r.Elements()[a - r.start] == a;
    }
  }

  /**
   * `hosts()`: an IPv4 block shorter than /31 leaves out its network and
   * broadcast addresses; a /31, a /32 and every IPv6 block keep the whole block.
   */
  function Hosts(n: Net): (r: AddrRange)
    ensures r.start <= r.end < Space(n.family)
    ensures ExcludesEnds(n) ==> r.start == NetworkAddr(n) + 1 && r.end == BroadcastAddr(n) - 1
    ensures !ExcludesEnds(n) ==> r.start == NetworkAddr(n) && r.end == BroadcastAddr(n)
  {
    if n.family == V4 && n.prefix < 31 then
      assert BlockSize(n) >= 4 by {
        PowAdd(2, 2, HostBits(n) - 2);
      }
      AddrRange(NetworkAddr(n) + 1, BroadcastAddr(n) - 1)
    else
      AddrRange(NetworkAddr(n), BroadcastAddr(n))
  }

  /** Whether `hosts()` leaves out the network and broadcast addresses. */
  predicate ExcludesEnds(n: Net)
  {
    n.family == V4 && n.prefix < 31
  }

  /** The host range is the block, less its two ends where the family and prefix say so. */
  lemma HostsMembers(n: Net, a: nat)
    ensures a in Hosts(n).Elements() <==>
              InBlock(n, a) && !(ExcludesEnds(n) && (a == NetworkAddr(n) || a == BroadcastAddr(n)))
  {
    InElements(Hosts(n), a);
    InBlockRange(n, a);
  }

  /** How many addresses `hosts()` yields: the block size, less two where the ends are left out. */
  lemma HostsCount(n: Net)
    ensures |Hosts(n).Elements()| == if ExcludesEnds(n) then BlockSize(n) - 2 else BlockSize(n)
    ensures |Hosts(n).Elements()| >= 1
  {
  }
}
