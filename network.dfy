/** Network membership of src/network.rs: a host name or address is resolved to IP
    addresses, and the host belongs to the crawl when some comma-separated network of
    the user's `--networks` string includes one of them. DNS resolution and the CIDR
    library are parameters. */
module Network {
  import opened Text

  /** The foreign operations `is_host_in_network` relies on. IP addresses and networks are
      represented by their text. */
  datatype Resolver = Resolver(
    /** `lookup_host`: the addresses a host name resolves to. */
    lookup: string -> seq<string>,
    /** `str::parse::<IpAddr>`: the address a literal denotes, if it is one. */
    parseIp: string -> Option<string>,
    /** `IPAddress::parse`: the network (or single address) a text denotes, if any. */
    parseNet: string -> Option<string>,
    /** `IPAddress::includes`: whether the first network contains the second. */
    includes: (string, string) -> bool)

  /** `is_valid_hostname`, written as the source writes it: no byte outside
      `[a-zA-Z0-9.-]`, no `-` or `.` at either end, not empty. */
  function IsValidHostname(h: string): (valid: bool)
    ensures valid <==> && h != []
                       && (forall i :: 0 <= i < |h| ==> IsHostChar(h[i]))
                       && h[0] != '-' && h[0] != '.'
                       && h[|h| - 1] != '-' && h[|h| - 1] != '.'
  {
    !(HasInvalidByte(h)
      || (|h| > 0 && h[|h| - 1] == '-')
      || (|h| > 0 && h[0] == '-')
      || (|h| > 0 && h[|h| - 1] == '.')
      || (|h| > 0 && h[0] == '.')
      || |h| == 0)
  }

  /** `hostname.bytes().any(|byte| !is_valid_char(byte))`. A character outside ASCII is
      encoded by bytes that are all outside the class, so testing characters is the same. */
  predicate HasInvalidByte(h: string) {
    exists i :: 0 <= i < |h| && !IsHostChar(h[i])
  }

  lemma EmptyIsNoHostname()
    ensures !IsValidHostname("")
  {
  }

  /** A non-empty run of decimal digits. */
  predicate IsDecimal(s: string) {
    s != [] && forall i :: 0 <= i < |s| ==> IsDigit(s[i])
  }

  /** Every dotted quad of decimal numbers passes the hostname test, so `get_ip_addresses`
      sends an IPv4 literal to DNS rather than parsing it. */
  lemma DottedQuadGoesToDns(a: string, b: string, c: string, d: string, res: Resolver)
    requires IsDecimal(a) && IsDecimal(b) && IsDecimal(c) && IsDecimal(d)
    ensures IsValidHostname(a + "." + b + "." + c + "." + d)
    ensures IpAddresses(a + "." + b + "." + c + "." + d, res) == res.lookup(a + "." + b + "." + c + "." + d)
  {
    var h := a + "." + b + "." + c + "." + d;
    forall x | x in a + b + c + d ensures IsDigit(x) {
      var w :| w in [a, b, c, d] && x in w;
      var i :| 0 <= i < |w| && w[i] == x;
    }
    forall i | 0 <= i < |h| ensures IsHostChar(h[i]) {
      assert h[i] in h;
      assert h[i] == '.' || h[i] in a + b + c + d;
    }
    assert h[0] == a[0];
    assert h[|h| - 1] == d[|d| - 1];
  }

  /** The address `10.0.0.1` is one of them. */
  lemma DottedQuadExample(res: Resolver)
    ensures IsValidHostname("10.0.0.1")
    ensures IpAddresses("10.0.0.1", res) == res.lookup("10.0.0.1")
  {
    assert IsDecimal("10") && IsDecimal("0") && IsDecimal("1");
    DottedQuadGoesToDns("10", "0", "0", "1", res);
    assert "10" + "." + "0" + "." + "0" + "." + "1" == "10.0.0.1";
  }

  /** Any text with a `:` (every IPv6 literal) fails the hostname test. */
  lemma ColonIsNoHostname(h: string, i: nat)
    requires i < |h| && h[i] == ':'
    ensures !IsValidHostname(h)
  {
  }

  /** `get_ip_addresses`: a valid host name is resolved by DNS; anything else is parsed as an
      address literal and yields that one address, or none. */
  function IpAddresses(host: string, res: Resolver): seq<string> {
    if IsValidHostname(host) then res.lookup(host)
    else match res.parseIp(host)
      case Some(ip) => [ip]
      case None => []
  }

  /** A literal with a `:` (every IPv6 literal) takes the parse branch and never reaches DNS:
      it gives the address it parses to, or none. */
  lemma ColonLiteralIsParsed(host: string, i: nat, res: Resolver)
    requires i < |host| && host[i] == ':'
    ensures |IpAddresses(host, res)| <= 1
    ensures res.parseIp(host).Some? ==> IpAddresses(host, res) == [res.parseIp(host).value]
    ensures res.parseIp(host).None? ==> IpAddresses(host, res) == []
  {
    ColonIsNoHostname(host, i);
  }

  /** The test of src/network.rs:41-44: the token parses as a network, the address parses
      again, and the network includes it. */
  predicate Includes(token: string, ip: string, res: Resolver) {
    && res.parseNet(token).Some? && res.parseNet(ip).Some?
    && res.includes(res.parseNet(token).value, res.parseNet(ip).value)
  }

  /** Some network token includes some resolved address of `host`. */
  predicate InNetwork(host: string, networks: string, res: Resolver) {
    AnyIncludes(Split(networks, ','), IpAddresses(host, res), res)
  }

  predicate AnyIncludes(tokens: seq<string>, ips: seq<string>, res: Resolver) {
    exists t, k :: 0 <= t < |tokens| && 0 <= k < |ips| && Includes(tokens[t], ips[k], res)
  }

  /** `is_host_in_network`: the nested search over tokens and addresses, left through the
      labelled break at the first inclusion. */
  method IsHostInNetwork(host: string, networks: string, res: Resolver) returns (valid: bool)
    ensures valid == InNetwork(host, networks, res)
  {
    valid := false;
    var ips := IpAddresses(host, res);
    var tokens := Split(networks, ',');
    var t := 0;
    label outer: while t < |tokens|
      invariant t <= |tokens|
      invariant !valid
      invariant forall t', k :: 0 <= t' < t && 0 <= k < |ips| ==> !Includes(tokens[t'], ips[k], res)
    {
      var nw := res.parseNet(tokens[t]);
      if nw.Some? {
        var k := 0;
        while k < |ips|
          invariant k <= |ips|
          invariant forall k' :: 0 <= k' < k ==> !Includes(tokens[t], ips[k'], res)
        {
          var ip := res.parseNet(ips[k]);
          if ip.Some? {
            if res.includes(nw.value, ip.value) {
              valid := true;
              break outer;
            }
          }
          k := k + 1;
        }
      }
      t := t + 1;
    }
  }

  /** A host without addresses is in no network. */
  lemma NoAddressesNoNetwork(host: string, networks: string, res: Resolver)
    requires IpAddresses(host, res) == []
    ensures !InNetwork(host, networks, res)
  {
  }

  /** Tokens that do not parse as networks are skipped: appending them changes nothing. */
  lemma UnparsableTokensSkipped(host: string, networks: string, junk: string, res: Resolver)
    requires forall t :: 0 <= t < |Split(junk, ',')| ==> res.parseNet(Split(junk, ',')[t]).None?
    ensures InNetwork(host, networks + [','] + junk, res) == InNetwork(host, networks, res)
  {
    SplitAppend(networks, junk, ',');
    UnparsableSkipped(Split(networks, ','), Split(junk, ','), IpAddresses(host, res), res);
  }

  lemma UnparsableSkipped(a: seq<string>, b: seq<string>, ips: seq<string>, res: Resolver)
    requires forall t :: 0 <= t < |b| ==> res.parseNet(b[t]).None?
    ensures AnyIncludes(a + b, ips, res) == AnyIncludes(a, ips, res)
  {
    var tokens := a + b;
    forall t | |a| <= t < |tokens| ensures res.parseNet(tokens[t]).None? {
      assert tokens[t] == b[t - |a|];
    }
    if AnyIncludes(tokens, ips, res) {
      var t, k :| 0 <= t < |tokens| && 0 <= k < |ips| && Includes(tokens[t], ips[k], res);
      assert tokens[t] == a[t];
    }
    if AnyIncludes(a, ips, res) {
      var t, k :| 0 <= t < |a| && 0 <= k < |ips| && Includes(a[t], ips[k], res);
      assert tokens[t] == a[t];
    }
  }
}
