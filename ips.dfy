/**
 * `calculate_all_ips` (src/ips.rs): which host addresses of a CIDR block are
 * printed, depending on `--all` and `--danger-zone`.
 */
module Ips {
  import opened Wrappers
  import opened IpNet

  /** Without `--danger-zone`, `--all` stops after this many addresses: 2^20. */
  const HARD_LIMIT: nat := 1048576

  function Min(a: nat, b: nat): nat
  {
    if a <= b then a else b
  }

  /**
   * `hosts.next().into_iter().chain(hosts.last())`: the first element of the
   * range, then the last element of what the first step left over.
   */
  function FirstAndLast(hosts: AddrRange): (r: seq<nat>)
    ensures var e := hosts.Elements();
      r == if |e| == 0 then [] else if |e| == 1 then [e[0]] else [e[0], e[|e| - 1]]
  {
    var step := hosts.Next();
    OptionToSeq(step.0) + OptionToSeq(step.1.Last())
  }

  /** `Iterator::take`: the first `k` elements, or all of them when there are fewer. */
  function Take(s: seq<nat>, k: nat): (r: seq<nat>)
    ensures |r| == Min(|s|, k) && r == s[..|r|]
  {
    if |s| <= k then s else s[..k]
  }

  /** The `if all && danger_zone … else if all … else …` choice of src/ips.rs:17-25. */
  function SelectHosts(hosts: AddrRange, all: bool, dangerZone: bool): (r: seq<nat>)
    ensures var e := hosts.Elements();
      && (all && dangerZone ==> r == e)
      && (all && !dangerZone ==> |r| == Min(|e|, HARD_LIMIT) && r == e[..|r|])
      && (!all ==> |r| <= 2)
      && (forall i :: 0 <= i < |r| ==> hosts.start <= r[i] <= hosts.end)
      && (forall i, j :: 0 <= i < j < |r| ==> r[i] < r[j])
  {
    if all && dangerZone then hosts.Elements()
    else if all then Take(hosts.Elements(), HARD_LIMIT)
    else FirstAndLast(hosts)
  }

  /** The addresses of `bits`, all of family `f`. */
  function AsIps(f: Family, bits: seq<nat>): (ips: seq<Ip>)
    requires forall i :: 0 <= i < |bits| ==> bits[i] < Space(f)
    ensures |ips| == |bits|
    ensures forall i :: 0 <= i < |ips| ==> ips[i] == IpAddr(f, bits[i])
  {
    seq(|bits|, i requires 0 <= i < |bits| => IpAddr(f, bits[i]))
  }

  /** The message `calculate_all_ips` fails with when `cidr` does not parse. */
  function InvalidCidr(cidr: string, reason: string): string
  {
    "'" + cidr + "' is an invalid CIDR: " + reason
  }

  /**
   * `calculate_all_ips`. Parsing the CIDR text is `ipnet`'s: `parsed` is its
   * outcome, the network or the text of the parse error.
   */
  function CalculateAllIps(cidr: string, parsed: Result<Net, string>, all: bool, dangerZone: bool)
    : (r: Result<seq<Ip>, string>)
    ensures parsed.Failure? <==> r.Failure?
    ensures parsed.Failure? ==> r.error == InvalidCidr(cidr, parsed.error)
    ensures parsed.Success? ==>
      var n := parsed.value;
      var sel := SelectHosts(Hosts(n), all, dangerZone);
      |r.value| == |sel| && forall i :: 0 <= i < |sel| ==> r.value[i] == IpAddr(n.family, sel[i])
  {
    match parsed
    case Failure(e) => Failure(InvalidCidr(cidr, e))
    case Success(n) =>
      var sel := SelectHosts(Hosts(n), all, dangerZone);
      Success(AsIps(n.family, sel))
  }

  /** What `calculate_all_ips` yields for a network that parsed. */
  function Selected(n: Net, all: bool, dangerZone: bool): seq<nat>
  {
    SelectHosts(Hosts(n), all, dangerZone)
  }

  /**
   * Without `--all`: the first host, then the last host; a block of a single
   * address (/32, /128) gives that address once.
   */
  lemma FirstAndLastHosts(n: Net, dangerZone: bool)
    ensures Selected(n, false, dangerZone) ==
      if n.prefix == Width(n.family) then [Hosts(n).start] else [Hosts(n).start, Hosts(n).end]
    ensures n.prefix < Width(n.family) ==> Hosts(n).start < Hosts(n).end
  {
  }

  /** A single-address block gives its own address, in every mode. */
  lemma SingleAddressBlock(n: Net, all: bool, dangerZone: bool)
    requires n.prefix == Width(n.family)
    ensures Selected(n, all, dangerZone) == [n.addr]
  {
    assert BlockSize(n) == 1;
  }

  /** With `--all` and without `--danger-zone`: the first min(hosts, 2^20) hosts, in order. */
  lemma CappedHosts(n: Net)
    ensures var e := Hosts(n).Elements();
      var r := Selected(n, true, false);
      |r| == Min(|e|, HARD_LIMIT) && r == e[..|r|]
    ensures |Selected(n, true, false)| ==
      Min(if ExcludesEnds(n) then BlockSize(n) - 2 else BlockSize(n), HARD_LIMIT)
  {
    HostsCount(n);
  }

  /** With `--all --danger-zone`: every host of the block, with no cap. */
  lemma AllHosts(n: Net)
    ensures Selected(n, true, true) == Hosts(n).Elements()
    ensures |Selected(n, true, true)| == if ExcludesEnds(n) then BlockSize(n) - 2 else BlockSize(n)
  {
    HostsCount(n);
  }

  /**
   * Every address printed lies in the block, and where `hosts()` leaves out the
   * ends (IPv4 shorter than /31) it is neither the network nor the broadcast address.
   */
  lemma SelectedInBlock(n: Net, all: bool, dangerZone: bool, i: nat)
    requires i < |Selected(n, all, dangerZone)|
    ensures var a := Selected(n, all, dangerZone)[i];
      && InBlock(n, a)
      && (ExcludesEnds(n) ==> a != NetworkAddr(n) && a != BroadcastAddr(n))
  {
    var a := Selected(n, all, dangerZone)[i];
    HostsMembers(n, a);
    InElements(Hosts(n), a);
  }

  /** IPv6 keeps the whole block: its all-zeros and all-ones addresses are printed too. */
  lemma V6KeepsEnds(n: Net)
    requires n.family == V6
    ensures NetworkAddr(n) in Selected(n, true, true)
    ensures BroadcastAddr(n) in Selected(n, true, true)
  {
    InElements(Hosts(n), NetworkAddr(n));
    InElements(Hosts(n), BroadcastAddr(n));
  }

  /** Only the network bits of the address matter: `10.10.10.1/24` lists the same hosts as `10.10.10.0/24`. */
  lemma HostBitsIgnored(n: Net, m: Net, all: bool, dangerZone: bool)
    requires n.family == m.family && n.prefix == m.prefix && InBlock(n, m.addr)
    ensures Selected(n, all, dangerZone) == Selected(m, all, dangerZone)
  {
    assert BlockSize(n) == BlockSize(m);
    assert NetworkAddr(n) == NetworkAddr(m);
  }
}
