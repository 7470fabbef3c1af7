/**
 * The address parser of the connection manager: maps `ircs://host[:port]`,
 * `irc://host[:port]` or a bare `host[:port]` to (tls, host, port).
 * The default ports are 6697 for TLS (section 2 of RFC 7194) and 6667 otherwise.
 */
module Address {
  import opened Wrappers
  import opened Text
  import Numeric

  /** A TCP port: Rust `u16`. */
  type Port = n: nat | n < Numeric.U16_LIMIT

  const IRCS_SCHEME: string := "ircs://"
  const IRC_SCHEME: string := "irc://"
  const TLS_DEFAULT_PORT: Port := 6697
  const PLAIN_DEFAULT_PORT: Port := 6667

  /** What `parse_address` returns: `(use_tls, host, port)`. */
  datatype Endpoint = Endpoint(tls: bool, host: string, port: Port)

  /**
   * `parse_host_port`: split at the LAST colon; if the text after it is a `u16`,
   * the text before it is the host; otherwise (or with no colon at all) the
   * whole input is the host and the default port is used.  It never fails,
   * and an empty host is accepted.
   */
  function ParseHostPort(hostPort: string, defaultPort: Port): (r: Result<(string, Port)>)
    ensures r.Ok?
    ensures ':' !in hostPort ==> r.value == (hostPort, defaultPort)
    // the whole input is the host exactly when the default port is taken
    ensures r.value.0 == hostPort ==> r.value.1 == defaultPort
    // otherwise the host is everything before the last colon and the port reads the rest
    ensures r.value.0 != hostPort ==>
      var n := |r.value.0|;
      && n < |hostPort| && hostPort[..n] == r.value.0 && hostPort[n] == ':'
      && ':' !in hostPort[n + 1..]
      && Numeric.ParseUnsigned(hostPort[n + 1..], Numeric.U16_LIMIT) == Some(r.value.1)
  {
    match LastIndexOf(hostPort, ':')
    case None => Ok((hostPort, defaultPort))
    case Some(i) =>
      match Numeric.ParseUnsigned(hostPort[i + 1..], Numeric.U16_LIMIT)
      case Some(port) => Ok((hostPort[..i], port))
      case None => Ok((hostPort, defaultPort))
  }

  /** A `u16` after the last colon always forces the split there. */
  lemma PortForcesSplit(hostPort: string, defaultPort: Port, i: nat)
    requires i < |hostPort| && hostPort[i] == ':' && ':' !in hostPort[i + 1..]
    requires Numeric.ParseUnsigned(hostPort[i + 1..], Numeric.U16_LIMIT).Some?
    ensures ParseHostPort(hostPort, defaultPort)
      == Ok((hostPort[..i], Numeric.ParseUnsigned(hostPort[i + 1..], Numeric.U16_LIMIT).value))
  {
    LastColonAt(hostPort, i);
    var port := Numeric.ParseUnsigned(hostPort[i + 1..], Numeric.U16_LIMIT);
    assert ParseHostPort(hostPort, defaultPort) == Ok((hostPort[..i], port.value));
  }

  /** The default port of a scheme. */
  function DefaultPort(tls: bool): Port
  {
    if tls then TLS_DEFAULT_PORT else PLAIN_DEFAULT_PORT
  }

  /** The scheme prefix written for an endpoint. */
  function Scheme(tls: bool): string
  {
    if tls then IRCS_SCHEME else IRC_SCHEME
  }

  /**
   * `parse_address`: `ircs://` first (TLS, 6697), then `irc://` (plain, 6667),
   * else the whole string as a plain `host[:port]` (6667).
   */
  function ParseAddress(address: string): (r: Result<Endpoint>)
    ensures r.Ok?
    ensures r.value.tls <==> StartsWith(address, IRCS_SCHEME)
    // a port other than the scheme's default was written after a colon
    ensures r.value.port != DefaultPort(r.value.tls) ==> ':' in address
    // without a scheme the whole text is a plain `host[:port]` with port 6667 as the default
    ensures !StartsWith(address, IRCS_SCHEME) && !StartsWith(address, IRC_SCHEME) ==>
      var hp := ParseHostPort(address, PLAIN_DEFAULT_PORT).value;
      r == Ok(Endpoint(false, hp.0, hp.1))
  {
    if StartsWith(address, IRCS_SCHEME) then
      match ParseHostPort(address[|IRCS_SCHEME|..], TLS_DEFAULT_PORT)
      case Err(e) => Err(e)
      case Ok((host, port)) => Ok(Endpoint(true, host, port))
    else if StartsWith(address, IRC_SCHEME) then
      match ParseHostPort(address[|IRC_SCHEME|..], PLAIN_DEFAULT_PORT)
      case Err(e) => Err(e)
      case Ok((host, port)) => Ok(Endpoint(false, host, port))
    else
      match ParseHostPort(address, PLAIN_DEFAULT_PORT)
      case Err(e) => Err(e)
      case Ok((host, port)) => Ok(Endpoint(false, host, port))
  }

  /** Any host followed by `:` and a rendered port reads back as that host and port. */
  lemma HostPortRoundTrip(host: string, port: Port, defaultPort: Port)
    ensures ParseHostPort(host + ":" + Numeric.ToDecimal(port), defaultPort) == Ok((host, port))
  {
    var s := host + ":" + Numeric.ToDecimal(port);
    var digits := Numeric.ToDecimal(port);
    assert s[|host|] == ':';
    assert s[|host| + 1..] == digits;
    forall j | |host| < j < |s| ensures s[j] != ':' {
      assert s[j] == digits[j - |host| - 1];
    }
    LastIndexOfUnique(s, ':', |host|);
    Numeric.ParseUnsignedToDecimal(port, Numeric.U16_LIMIT);
    assert s[..|host|] == host;
  }

  /** With a scheme in front, the rest is parsed with that scheme's default port. */
  lemma SchemeRoute(tls: bool, rest: string)
    ensures var hp := ParseHostPort(rest, DefaultPort(tls)).value;
      ParseAddress(Scheme(tls) + rest) == Ok(Endpoint(tls, hp.0, hp.1))
  {
    var a := Scheme(tls) + rest;
    assert a[|Scheme(tls)|..] == rest;
    assert a[..|Scheme(tls)|] == Scheme(tls);
    if !tls {
      DiffersAt(a, IRCS_SCHEME, 3);
    }
  }

  /** Writing an endpoint with its scheme and explicit port, then parsing it, gives it back. */
  lemma AddressRoundTrip(e: Endpoint)
    ensures ParseAddress(Scheme(e.tls) + e.host + ":" + Numeric.ToDecimal(e.port)) == Ok(e)
  {
    var rest := e.host + ":" + Numeric.ToDecimal(e.port);
    assert Scheme(e.tls) + e.host + ":" + Numeric.ToDecimal(e.port) == Scheme(e.tls) + rest;
    HostPortRoundTrip(e.host, e.port, DefaultPort(e.tls));
    SchemeRoute(e.tls, rest);
  }

  /** Without a port, each scheme takes its default port and the whole rest is the host. */
  lemma AddressDefaultPort(tls: bool, host: string)
    requires ':' !in host
    ensures ParseAddress(Scheme(tls) + host) == Ok(Endpoint(tls, host, DefaultPort(tls)))
  {
    SchemeRoute(tls, host);
  }

  /** Without a scheme the connection is plain, and a port after the last colon is honoured. */
  lemma BareAddress(host: string, port: Port)
    requires !StartsWith(host, IRCS_SCHEME) && !StartsWith(host, IRC_SCHEME)
    ensures ParseAddress(host + ":" + Numeric.ToDecimal(port)) == Ok(Endpoint(false, host, port))
  {
    var a := host + ":" + Numeric.ToDecimal(port);
    NoSchemeWithPort(host, Numeric.ToDecimal(port), IRCS_SCHEME);
    NoSchemeWithPort(host, Numeric.ToDecimal(port), IRC_SCHEME);
    HostPortRoundTrip(host, port, PLAIN_DEFAULT_PORT);
  }

  /** A scheme-less host followed by `:` and a digit does not start with a scheme. */
  lemma NoSchemeWithPort(host: string, digits: string, scheme: string)
    requires scheme == IRCS_SCHEME || scheme == IRC_SCHEME
    requires !StartsWith(host, scheme)
    requires digits != [] && Numeric.IsDigit(digits[0])
    ensures !StartsWith(host + ":" + digits, scheme)
  {
    var a := host + ":" + digits;
    if |host| >= |scheme| {
      assert a[..|scheme|] == host[..|scheme|];
    } else {
      assert a[|host|] == ':' && a[|host| + 1] == digits[0];
    }
  }

  /** A text after the last colon that is not a `u16` makes the whole input the host. */
  lemma BadPortKeepsWholeHost(hostPort: string, defaultPort: Port, i: nat)
    requires i < |hostPort| && hostPort[i] == ':' && ':' !in hostPort[i + 1..]
    requires Numeric.ParseUnsigned(hostPort[i + 1..], Numeric.U16_LIMIT).None?
    ensures ParseHostPort(hostPort, defaultPort) == Ok((hostPort, defaultPort))
  {
    LastColonAt(hostPort, i);
  }

  /** A colon with no colon after it is the one `rsplit_once(':')` splits at. */
  lemma LastColonAt(s: string, i: nat)
    requires i < |s| && s[i] == ':' && ':' !in s[i + 1..]
    ensures LastIndexOf(s, ':') == Some(i)
  {
    forall j | i < j < |s| ensures s[j] != ':' {
      assert s[j] == s[i + 1..][j - i - 1];
    }
    LastIndexOfUnique(s, ':', i);
  }

  /** The last occurrence of `c` is the one with no `c` after it. */
  lemma LastIndexOfUnique(s: string, c: char, i: nat)
    requires i < |s| && s[i] == c
    requires forall j :: i < j < |s| ==> s[j] != c
    ensures LastIndexOf(s, c) == Some(i)
  {
    var r := LastIndexOf(s, c);
    forall j | r.value < j < |s| ensures s[j] != c {
      assert s[j] == s[r.value + 1..][j - r.value - 1];
    }
  }

  /** `ircs://host` takes the TLS default port 6697. */
  lemma TlsDefaultExample(address: string)
    requires address == "ircs://irc.example.net"
    ensures ParseAddress(address) == Ok(Endpoint(true, "irc.example.net", 6697))
  {
    var h := "irc.example.net";
    assert ':' !in h;
    assert address == Scheme(true) + h;
    AddressDefaultPort(true, h);
  }

  /** Writing the scheme's default port explicitly names the same endpoint as leaving it out. */
  lemma ExplicitDefaultPort(tls: bool, host: string)
    requires ':' !in host
    ensures ParseAddress(Scheme(tls) + host + ":" + Numeric.ToDecimal(DefaultPort(tls))) == ParseAddress(Scheme(tls) + host)
  {
    AddressRoundTrip(Endpoint(tls, host, DefaultPort(tls)));
    AddressDefaultPort(tls, host);
  }

  /** `host:1234` is plain with port 1234. */
  lemma BareAddressExample(address: string)
    requires address == "host:1234"
    ensures ParseAddress(address) == Ok(Endpoint(false, "host", 1234))
  {
    assert Numeric.ToDecimal(1234) == "1234";
    assert address == "host" + ":" + Numeric.ToDecimal(1234);
    DiffersAt("host", IRCS_SCHEME, 0);
    DiffersAt("host", IRC_SCHEME, 0);
    BareAddress("host", 1234);
  }

  /** `host:notaport` keeps the whole string as the host, with the default port. */
  lemma BadPortExample(address: string)
    requires address == "host:notaport"
    ensures ParseAddress(address) == Ok(Endpoint(false, address, 6667))
  {
    assert address[5..] == "notaport";
    assert !Numeric.IsDigit(address[5..][0]);
    BadPortKeepsWholeHost(address, PLAIN_DEFAULT_PORT, 4);
    DiffersAt(address, IRCS_SCHEME, 0);
    DiffersAt(address, IRC_SCHEME, 0);
  }

  /** `irc://` alone is accepted with an empty host. */
  lemma EmptyHostExample()
    ensures ParseAddress("irc://") == Ok(Endpoint(false, "", 6667))
  {
    AddressDefaultPort(false, "");
  }
}
