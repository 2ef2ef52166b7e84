/** The unit tests of src/ips.rs, stated about the model. */
module IpsExamples {
  import opened Wrappers
  import opened Numerals
  import opened IpNet
  import opened Ips

  /** The number of the IPv4 address `a.b.c.d`. */
  function Dotted(a: nat, b: nat, c: nat, d: nat): nat
  {
    ((a * 256 + b) * 256 + c) * 256 + d
  }

  /** The number of the IPv6 address 2001:db8:: */
  const DOC_PREFIX: nat := 0x2001_0db8_0000_0000_0000_0000_0000_0000

  /** `10.10.10.1/24` without flags: the first and the last host of 10.10.10.0/24. */
  lemma V4FirstAndLast()
    ensures CalculateAllIps("10.10.10.1/24", Success(IpNetwork(V4, Dotted(10, 10, 10, 1), 24)), false, false)
      == Success([IpAddr(V4, Dotted(10, 10, 10, 1)), IpAddr(V4, Dotted(10, 10, 10, 254))])
  {
    var n: Net := IpNetwork(V4, Dotted(10, 10, 10, 1), 24);
    PowersOfTwo();
    assert BlockSize(n) == 256;
    assert NetworkAddr(n) == Dotted(10, 10, 10, 0);
    FirstAndLastHosts(n, false);
    var r := CalculateAllIps("10.10.10.1/24", Success(n), false, false);
    assert r.value == [r.value[0], r.value[1]];
  }

  /** `10.10.10.1/32` without flags: the address itself, once. */
  lemma V4SingleHost()
    ensures CalculateAllIps("10.10.10.1/32", Success(IpNetwork(V4, Dotted(10, 10, 10, 1), 32)), false, false)
      == Success([IpAddr(V4, Dotted(10, 10, 10, 1))])
  {
    var n: Net := IpNetwork(V4, Dotted(10, 10, 10, 1), 32);
    SingleAddressBlock(n, false, false);
    var r := CalculateAllIps("10.10.10.1/32", Success(n), false, false);
    assert r.value == [r.value[0]];
  }

  /** `10.10.10.1/8 --all`: stopped at the cap of 2^20 addresses. */
  lemma V4ShowAll()
    ensures var r := CalculateAllIps("10.10.10.1/8", Success(IpNetwork(V4, Dotted(10, 10, 10, 1), 8)), true, false);
      r.Success? && |r.value| == HARD_LIMIT
  {
    var n: Net := IpNetwork(V4, Dotted(10, 10, 10, 1), 8);
    PowersOfTwo();
    assert BlockSize(n) == 0x100_0000;
    CappedHosts(n);
  }

  /** `10.10.10.0/8 --all --danger-zone`: from 10.0.0.1 to 10.255.255.254, network and broadcast left out. */
  lemma V4ShowAllInDangerZone()
    ensures var r := CalculateAllIps("10.10.10.0/8", Success(IpNetwork(V4, Dotted(10, 10, 10, 0), 8)), true, true);
      && r.Success? && |r.value| > 0
      && r.value[0] == IpAddr(V4, Dotted(10, 0, 0, 1))
      && r.value[|r.value| - 1] == IpAddr(V4, Dotted(10, 255, 255, 254))
  {
    var n: Net := IpNetwork(V4, Dotted(10, 10, 10, 0), 8);
    PowersOfTwo();
    assert BlockSize(n) == 0x100_0000;
    assert NetworkAddr(n) == Dotted(10, 0, 0, 0);
    AllHosts(n);
  }

  /** `2001:db8::/113` without flags: 2001:db8:: and 2001:db8::7fff; `/128` gives 2001:db8:: once. */
  lemma V6FirstAndLast()
    ensures CalculateAllIps("2001:db8::/113", Success(IpNetwork(V6, DOC_PREFIX, 113)), false, false)
      == Success([IpAddr(V6, DOC_PREFIX), IpAddr(V6, DOC_PREFIX + 0x7fff)])
    ensures CalculateAllIps("2001:db8::/128", Success(IpNetwork(V6, DOC_PREFIX, 128)), false, false)
      == Success([IpAddr(V6, DOC_PREFIX)])
  {
    var n: Net := IpNetwork(V6, DOC_PREFIX, 113);
    PowersOfTwo();
    assert BlockSize(n) == 0x8000;
    assert NetworkAddr(n) == DOC_PREFIX;
    FirstAndLastHosts(n, false);
    var r := CalculateAllIps("2001:db8::/113", Success(n), false, false);
    assert r.value == [r.value[0], r.value[1]];
    var m: Net := IpNetwork(V6, DOC_PREFIX, 128);
    SingleAddressBlock(m, false, false);
    var q := CalculateAllIps("2001:db8::/128", Success(m), false, false);
    assert q.value == [q.value[0]];
  }

  /** `2001:db8::/106 --all`: stopped at the cap of 2^20 addresses. */
  lemma V6ShowAll()
    ensures var r := CalculateAllIps("2001:db8::/106", Success(IpNetwork(V6, DOC_PREFIX, 106)), true, false);
      r.Success? && |r.value| == HARD_LIMIT
  {
    var n: Net := IpNetwork(V6, DOC_PREFIX, 106);
    PowersOfTwo();
    assert BlockSize(n) == 0x40_0000;
    CappedHosts(n);
  }

  /** `2001:db8::/106 --all --danger-zone`: from 2001:db8:: itself to 2001:db8::3f:ffff. */
  lemma V6ShowAllInDangerZone()
    ensures var r := CalculateAllIps("2001:db8::/106", Success(IpNetwork(V6, DOC_PREFIX, 106)), true, true);
      && r.Success? && |r.value| > 0
      && r.value[0] == IpAddr(V6, DOC_PREFIX)
      && r.value[|r.value| - 1] == IpAddr(V6, DOC_PREFIX + 0x3f_ffff)
  {
    var n: Net := IpNetwork(V6, DOC_PREFIX, 106);
    PowersOfTwo();
    assert BlockSize(n) == 0x40_0000;
    assert NetworkAddr(n) == DOC_PREFIX;
    AllHosts(n);
  }
}
