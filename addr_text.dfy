/**
 * Text of an address, standing in for Rust's `Display for IpAddr`: IPv4 as
 * four dotted decimal octets, IPv6 as eight colon-separated lower-case hex
 * groups without leading zeros.
 */
module AddrText {
  import opened Numerals
  import opened Text
  import opened IpNet

  /** Each number of `ds` written in `base`. */
  function NumeralsIn(ds: seq<nat>, base: nat): (ss: seq<string>)
    requires 2 <= base <= 16
    ensures |ss| == |ds|
    ensures forall i :: 0 <= i < |ds| ==> ss[i] == Numeral(ds[i], base)
  {
    seq(|ds|, i requires 0 <= i < |ds| => Numeral(ds[i], base))
  }

  function ParseNumerals(ss: seq<string>, base: nat): (ds: seq<nat>)
    ensures |ds| == |ss|
    ensures forall i :: 0 <= i < |ss| ==> ds[i] == ParseNumeral(ss[i], base)
  {
    seq(|ss|, i requires 0 <= i < |ss| => ParseNumeral(ss[i], base))
  }

  /** The octets (IPv4) or the 16-bit groups (IPv6) of an address, in text. */
  function Fields(ip: Ip): seq<string>
  {
    NumeralsIn(Groups(ip.bits, FieldRadix(ip.family), FieldCount(ip.family)), TextBase(ip.family))
  }

  function FieldCount(f: Family): nat
  {
    match f
    case V4 => 4
    case V6 => 8
  }

  function FieldRadix(f: Family): nat
  {
    match f
    case V4 => 256
    case V6 => 65536
  }

  function TextBase(f: Family): nat
  {
    match f
    case V4 => 10
    case V6 => 16
  }

  /** The character between fields. */
  function Separator(f: Family): char
  {
    match f
    case V4 => '.'
    case V6 => ':'
  }

  function Render(ip: Ip): string
  {
    Join(Fields(ip), Separator(ip.family))
  }

  /** Reads an address back: dotted decimal if it has a dot, colon-separated hex otherwise. */
  function ParseIp(s: string): IpAddr
  {
    if '.' in s then IpAddr(V4, Value(ParseNumerals(Split(s, '.'), 10), 256))
    else IpAddr(V6, Value(ParseNumerals(Split(s, ':'), 16), 65536))
  }

  /** A rendered address is non-empty and uses only digits and its family's separator. */
  lemma RenderAlphabet(ip: Ip)
    ensures |Render(ip)| > 0
    ensures forall c :: c in Render(ip) ==> IsDigitChar(c) || c == Separator(ip.family)
  {
    var fs := Fields(ip);
    var sep := Separator(ip.family);
    assert Join(fs, sep) == fs[0] + [sep] + Join(fs[1..], sep);
    forall c | c in Render(ip)
      ensures IsDigitChar(c) || c == sep
    {
      JoinChars(fs, sep, c);
    }
  }

  /** Splitting the joined numerals on a separator that is not a digit reads the numbers back. */
  lemma ReadFields(ds: seq<nat>, base: nat, sep: char)
    requires 2 <= base <= 16 && |ds| >= 1 && !IsDigitChar(sep)
    ensures ParseNumerals(Split(Join(NumeralsIn(ds, base), sep), sep), base) == ds
  {
    var fs := NumeralsIn(ds, base);
    forall i | 0 <= i < |fs|
      ensures sep !in fs[i]
    {
      assert forall j :: 0 <= j < |fs[i]| ==> IsDigitChar(fs[i][j]);
    }
    SplitJoin(fs, sep);
    forall i | 0 <= i < |ds|
      ensures ParseNumeral(fs[i], base) == ds[i]
    {
      NumeralRoundTrip(ds[i], base);
    }
  }

  /** The text of an address names it uniquely: reading it back gives the address. */
  lemma ParseRender(ip: Ip)
    ensures ParseIp(Render(ip)) == ip
  {
    if ip.family == V4 {
      ParseRenderV4(ip);
    } else {
      ParseRenderV6(ip);
    }
  }

  lemma ParseRenderV4(ip: Ip)
    requires ip.family == V4
    ensures ParseIp(Render(ip)) == ip
  {
    var fs := Fields(ip);
    var gs := Groups(ip.bits, 256, 4);
    assert Render(ip) == fs[0] + ['.'] + Join(fs[1..], '.');
    assert Render(ip)[|fs[0]|] == '.';
    ReadFields(gs, 10, '.');
    assert Pow(2, 8) == 256;
    PowMul(2, 8, 4);
    GroupsRoundTrip(ip.bits, 256, 4);
  }

  lemma ParseRenderV6(ip: Ip)
    requires ip.family == V6
    ensures ParseIp(Render(ip)) == ip
  {
    var gs := Groups(ip.bits, 65536, 8);
    RenderAlphabet(ip);
    assert '.' !in Render(ip);
    ReadFields(gs, 16, ':');
    assert Pow(2, 16) == 65536 by {
      PowAdd(2, 8, 8);
    }
    PowMul(2, 16, 8);
    GroupsRoundTrip(ip.bits, 65536, 8);
  }

  /** Different addresses are printed differently. */
  lemma RenderInjective(a: Ip, b: Ip)
    requires Render(a) == Render(b)
    ensures a == b
  {
    ParseRender(a);
    ParseRender(b);
  }
}
