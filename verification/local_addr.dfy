/** `Plugin.get_local_addr`: the order of address strategies and the
    `"host:port"` formatting. The socket and name-service calls are not
    modelled; their outcomes are inputs. */
module LocalAddr {
  import opened Wrappers
  import opened Strings

  /** A TCP/UDP port number. */
  type Port = p: int | 0 <= p < 0x1_0000

  /** A socket address as `getsockname()` returns it: (host, port). */
  datatype Endpoint = Endpoint(host: string, port: Port)

  /** The outcome of `socket.gethostbyname(name)`: an address, or `gaierror`. */
  datatype Lookup = Resolved(ip: string) | GaiError

  datatype AddrError =
    | ProbeFailed              // connecting the probe socket to the online-check host raised
    | LookupFailed(name: string) // `gethostbyname(name)` raised gaierror, which nothing catches
    | ListenFailed(host: string) // binding the listener to (host, 0) raised OSError

  /** The string `f"{host}:{port}"`. */
  function FormatAddr(host: string, port: Port): (s: string)
    ensures ParseAddr(s) == Some(Endpoint(host, port))
  {
    FormatParses(host, port);
    host + ":" + Decimal(port)
  }

  /** Reads a `"host:port"` string back: the host is everything before the
      last colon, the port the decimal number after it. */
  function ParseAddr(s: string): Option<Endpoint>
  {
    var colon := LastIndex(s, ':');
    if colon < 0 then None
    else
      var digits := s[colon + 1..];
      if |digits| == 0 || !AllDigits(digits) then None
      else
        var p := ParseDecimal(digits);
        if p < 0x1_0000 then Some(Endpoint(s[..colon], p)) else None
  }

  lemma FormatParses(host: string, port: Port)
    ensures ParseAddr(host + ":" + Decimal(port)) == Some(Endpoint(host, port))
  {
    var digits := Decimal(port);
    var s := host + ":" + digits;
    assert ':' !in digits;
    LastIndexMarker(host, ':', digits);
    assert s[|host| + 1..] == digits;
    assert s[..|host|] == host;
    DecimalRoundTrip(port);
  }

  /** The host of the fallback: `<hostname>.local` if it resolves, otherwise
      the bare hostname, whose gaierror is not caught. */
  function FallbackHost(hostname: string, resolve: string -> Lookup): (r: Result<string, AddrError>)
    ensures r.Success? <==>
      (resolve(hostname + ".local").Resolved? || resolve(hostname).Resolved?)
    ensures resolve(hostname + ".local").Resolved? ==> r == Success(resolve(hostname + ".local").ip)
    ensures resolve(hostname + ".local").GaiError? && resolve(hostname).Resolved? ==>
      r == Success(resolve(hostname).ip)
    ensures r.Failure? ==> r.error == LookupFailed(hostname)
  {
    match resolve(hostname + ".local")
    case Resolved(ip) => Success(ip)
    case GaiError =>
      match resolve(hostname)
      case Resolved(ip) => Success(ip)
      case GaiError => Failure(LookupFailed(hostname))
  }

  /** `get_local_addr`. Inputs: `probe`, the local endpoint the datagram
      socket gets when connected to the online-check address (None when the
      connect raises); `canBind`, the outcome of `_can_bind_addr`;
      `hostname`, `socket.gethostname()`; `resolve`, `socket.gethostbyname`;
      `listen`, the port the OS assigns when a stream socket is bound to
      (host, 0) and listens (None when the bind raises OSError). */
  function GetLocalAddr(
    probe: Option<Endpoint>, canBind: Endpoint -> bool, hostname: string,
    resolve: string -> Lookup, listen: string -> Option<Port>
  ): (r: Result<string, AddrError>)
    ensures probe.None? ==> r == Failure(ProbeFailed)
    ensures probe.Some? && canBind(probe.value) ==>
      r.Success? && ParseAddr(r.value) == Some(probe.value)
    ensures probe.Some? && !canBind(probe.value) ==>
      match FallbackHost(hostname, resolve)
      case Failure(e) => r == Failure(e)
      case Success(ip) =>
        match listen(ip)
        case None => r == Failure(ListenFailed(ip))
        case Some(port) => r.Success? && ParseAddr(r.value) == Some(Endpoint(ip, port))
  {
    match probe
    case None => Failure(ProbeFailed)
    case Some(ep) =>
      if canBind(ep) then Success(FormatAddr(ep.host, ep.port))
      else
        match FallbackHost(hostname, resolve)
        case Failure(e) => Failure(e)
        case Success(ip) =>
          match listen(ip)
          case None => Failure(ListenFailed(ip))
          case Some(port) => Success(FormatAddr(ip, port))
  }

  /** When the probed address can be bound, neither the hostname, nor the
      name service, nor the listener is consulted. */
  lemma ProbeWinsWithoutLookups(
    ep: Endpoint, canBind: Endpoint -> bool,
    hostname1: string, resolve1: string -> Lookup, listen1: string -> Option<Port>,
    hostname2: string, resolve2: string -> Lookup, listen2: string -> Option<Port>)
    requires canBind(ep)
    ensures GetLocalAddr(Some(ep), canBind, hostname1, resolve1, listen1)
         == GetLocalAddr(Some(ep), canBind, hostname2, resolve2, listen2)
         == Success(FormatAddr(ep.host, ep.port))
  {
  }

  /** The bare hostname is looked up only when `<hostname>.local` raises
      gaierror: two name services that agree on `<hostname>.local`, which
      resolves, give the same result. */
  lemma MdnsFirst(
    ep: Endpoint, canBind: Endpoint -> bool, hostname: string,
    resolve1: string -> Lookup, resolve2: string -> Lookup, listen: string -> Option<Port>)
    requires resolve1(hostname + ".local") == resolve2(hostname + ".local")
    requires resolve1(hostname + ".local").Resolved?
    ensures GetLocalAddr(Some(ep), canBind, hostname, resolve1, listen)
         == GetLocalAddr(Some(ep), canBind, hostname, resolve2, listen)
  {
  }

  /** A failing listener bind is the end of the chain: the error names the
      fallback host, and nothing else is tried. */
  lemma ListenFailurePropagates(
    ep: Endpoint, canBind: Endpoint -> bool, hostname: string,
    resolve: string -> Lookup, listen: string -> Option<Port>, ip: string)
    requires !canBind(ep)
    requires FallbackHost(hostname, resolve) == Success(ip)
    requires listen(ip).None?
    ensures GetLocalAddr(Some(ep), canBind, hostname, resolve, listen) == Failure(ListenFailed(ip))
  {
  }

  /** The test where the online-check probe yields 1.2.3.4 port 1234 and it
      can be bound. */
  lemma ResolutionViaCheckAddrOK(hostname: string, resolve: string -> Lookup, listen: string -> Option<Port>)
    ensures GetLocalAddr(Some(Endpoint("1.2.3.4", 1234)), _ => true, hostname, resolve, listen)
         == Success("1.2.3.4:1234")
  {
    assert Decimal(1234) == "1234";
    assert "1.2.3.4" + ":" + "1234" == "1.2.3.4:1234";
  }

  /** The test where the probed address cannot be bound: the name service
      answers 1.2.3.4 and the listener gets port 1234. */
  lemma ResolutionFailoverToMdns(ep: Endpoint, hostname: string)
    ensures GetLocalAddr(Some(ep), _ => false, hostname, _ => Resolved("1.2.3.4"), _ => Some(1234))
         == Success("1.2.3.4:1234")
  {
    assert Decimal(1234) == "1234";
    assert "1.2.3.4" + ":" + "1234" == "1.2.3.4:1234";
  }
}
