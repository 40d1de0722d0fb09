/** The result shaping of src/network/socket.rs: the decisions the wrapper takes on
    the values the transport hands back. Every transport call is replaced by its
    outputs, which become parameters (a status code, a port, a byte count, an
    address, a new socket's handle); what the wrapper does with them is modelled
    exactly. */
module Sockets {
  import opened Ints
  import opened Results
  import opened SocketError
  import Times

  /** An IPv4 address, identified by its 32-bit number. The library keeps an address
      as the sixteen bytes of its dotted text, which fix the number and are fixed by
      it, so two addresses are equal exactly when their numbers are. */
  datatype IpAddress = IpAddress(bits: u32)

  /** `IpAddress::none`, which is `IpAddress::from(0)`: 0.0.0.0. */
  const NO_ADDRESS: IpAddress := IpAddress(0)

  /** The library's "any address" constant, `sfIpAddress_Any`: also 0.0.0.0. */
  const ANY_ADDRESS: IpAddress := IpAddress(0)

  datatype IpAndPort = IpAndPort(ip: IpAddress, port: u16)

  /** What a UDP `receive` returns: the bytes read and who sent them. */
  datatype ReceivedRaw = ReceivedRaw(data: seq<u8>, sender: IpAndPort)

  /** A socket the transport created, known to the wrapper only by its handle. */
  datatype TcpSocket = TcpSocket(handle: nat)

  /** Whether an accept status means "try again later" rather than failure: only
      for a non-blocking listener, and only for `NotReady`. */
  predicate RetryLater(blocking: bool, code: int) {
    !blocking && code == NOT_READY
  }

  /** `TcpListener::accept`, given the status the transport returned, whether the
      listener is blocking, and the handle it wrote. A non-blocking listener that is
      not ready yields `Ok(None)`; success yields the new socket; every other status
      collapses into `Err(Some(OtherError))`. An unknown status panics in
      `code_to_err`, hence the precondition. */
  function Accept(blocking: bool, code: int, handle: nat): (r: Result<Option<TcpSocket>, Option<Error>>)
    requires IsKnownStatus(code)
    ensures r == Ok(None) <==> RetryLater(blocking, code)
    ensures r.Ok? && r.value.Some? <==> code == DONE
    ensures r.Ok? && r.value.Some? ==> r.value.value == TcpSocket(handle)
    ensures r.Err? ==> r.error == Some(OtherError)
  {
    if !blocking && code == NOT_READY then Ok(None)
    else match CodeToErr(code)
      case Err(_) => Err(Some(OtherError))
      case Ok(_) => Ok(Some(TcpSocket(handle)))
  }

  /** A blocking listener accepts exactly when `code_to_err` reports success, so
      `NotReady` is an error there; a non-blocking one differs from it only on
      `NotReady`, which it does not count as an error. */
  lemma AcceptAgreesWithStatus(blocking: bool, code: int, handle: nat)
    requires IsKnownStatus(code)
    ensures blocking ==> (Accept(blocking, code, handle).Ok? <==> CodeToErr(code).Ok?)
    ensures !blocking && code != NOT_READY ==> Accept(blocking, code, handle) == Accept(true, code, handle)
    ensures Accept(true, NOT_READY, handle) == Err(Some(OtherError))
    ensures Accept(false, NOT_READY, handle) == Ok(None)
  {
  }

  /** `TcpListener::get_local_port`: port 0 means the listener is not listening. */
  function ListenerLocalPort(port: u16): (r: Result<u16, Error>)
    ensures r.Ok? <==> port != 0
    ensures r.Ok? ==> r.value == port
    ensures r.Err? ==> r.error == OtherError
  {
    if port == 0 then Err(OtherError) else Ok(port)
  }

  /** `TcpSocket::get_local_port` and `UdpSocket::get_local_port`: port 0 means the
      socket is not bound. */
  function SocketLocalPort(port: u16): (r: Option<u16>)
    ensures r.Some? <==> port != 0
    ensures r.Some? ==> r.value == port
  {
    if port == 0 then None else Some(port)
  }

  /** The listener and the sockets read the port the same way: both report it
      exactly when it is nonzero, and then report the same port. */
  lemma LocalPortsAgree(port: u16)
    ensures ListenerLocalPort(port).Ok? <==> SocketLocalPort(port).Some?
    ensures SocketLocalPort(port).Some? ==> ListenerLocalPort(port).value == SocketLocalPort(port).value
  {
  }

  /** `TcpSocket::get_remote`, given the remote port and the remote address the
      transport reports: port 0 means there is no connection. */
  function GetRemote(port: u16, ip: IpAddress): (r: Result<IpAndPort, Error>)
    ensures r.Err? <==> port == 0
    ensures r.Err? ==> r.error == OtherError
    ensures r.Ok? ==> r.value.port == port && r.value.ip == ip
  {
    if port == 0 then Err(OtherError) else Ok(IpAndPort(ip, port))
  }

  /** Every connected peer, one with a nonzero port, is reported back as it is, and
      a reported peer is never on port 0. */
  lemma GetRemoteRoundTrip(peer: IpAndPort, port: u16, ip: IpAddress)
    ensures peer.port != 0 ==> GetRemote(peer.port, peer.ip) == Ok(peer)
    ensures GetRemote(port, ip).Ok? ==> GetRemote(port, ip).value.port != 0
  {
  }

  /** `TcpSocket::send_partial`, given the status and the number of bytes the
      transport says it sent. On success the rest of the buffer is returned; slicing
      past the end panics, so a successful status needs `sent <= |data|`. */
  function SendPartial(data: seq<u8>, code: int, sent: nat): (r: Result<seq<u8>, Error>)
    requires IsKnownStatus(code)
    requires code == DONE ==> sent <= |data|
    ensures r.Ok? <==> code == DONE
    ensures r.Ok? ==> |r.value| + sent == |data| && data == data[..sent] + r.value
    ensures r.Err? ==> CodeToErr(code) == Err(r.error)
  {
    match CodeToErr(code)
    case Err(e) => Err(e)
    case Ok(_) => Ok(data[sent..])
  }

  /** Partial sends compose: feeding what is left of one successful send into the
      next leaves what is left after both counts, so repeating `send_partial` on its
      own results walks through the buffer in order. */
  lemma SendPartialComposes(data: seq<u8>, first: nat, second: nat)
    requires first <= |data|
    requires second <= |data| - first
    ensures SendPartial(data, DONE, first).Ok?
    ensures SendPartial(SendPartial(data, DONE, first).value, DONE, second)
      == SendPartial(data, DONE, first + second)
  {
    var rest := SendPartial(data, DONE, first).value;
    assert rest == data[first..];
    assert rest[second..] == data[first + second..];
  }

  /** `TcpSocket::receive`, given the status and the byte count the transport
      reports. The status goes through `code_to_err`, which panics on an unknown
      code, but its result is dropped: the call always succeeds with the first
      `size` bytes of the buffer. */
  function TcpReceive(buf: seq<u8>, code: int, size: nat): (r: Result<seq<u8>, int>)
    requires IsKnownStatus(code)
    requires size <= |buf|
    ensures r.Ok?
    ensures |r.value| == size && buf == r.value + buf[size..]
  {
    var _ := CodeToErr(code);
    Ok(buf[..size])
  }

  /** The TCP receive cannot tell a failure from success: a disconnected or failed
      socket returns the same bytes as a successful read. */
  lemma TcpReceiveIgnoresStatus(buf: seq<u8>, code: int, other: int, size: nat)
    requires IsKnownStatus(code) && IsKnownStatus(other)
    requires size <= |buf|
    ensures TcpReceive(buf, code, size) == TcpReceive(buf, other, size)
    ensures TcpReceive(buf, DISCONNECTED, size) == TcpReceive(buf, DONE, size)
  {
  }

  /** `UdpSocket::receive` as written, given the status, the byte count, and the
      sender's address and port the transport writes back. The address is asked for
      through `&mut remote.ip.to_csfml()`, a pointer to a temporary copy, so the
      transport's write is lost and the sender's address stays `IpAddress::none()`;
      the port is written in place and survives. */
  function UdpReceiveAsWritten(buf: seq<u8>, code: int, size: nat, ip: IpAddress, port: u16)
    : (r: Result<ReceivedRaw, Error>)
    requires IsKnownStatus(code)
    requires code == DONE ==> size <= |buf|
    ensures r.Ok? <==> code == DONE
    ensures r.Err? ==> CodeToErr(code) == Err(r.error)
    ensures r.Ok? ==> r.value.data == buf[..size] && r.value.sender == IpAndPort(NO_ADDRESS, port)
  {
    var remote := IpAndPort(NO_ADDRESS, port);
    match CodeToErr(code)
    case Err(e) => Err(e)
    case Ok(_) => Ok(ReceivedRaw(buf[..size], remote))
  }

  /** The datagram from 127.0.0.1 is reported as coming from no address at all:
      whatever the transport says, the sender's address is lost. */
  lemma UdpReceiveAsWrittenLosesSender(buf: seq<u8>, ip: IpAddress, other: IpAddress)
    ensures UdpReceiveAsWritten(buf, DONE, 0, ip, 5000) == UdpReceiveAsWritten(buf, DONE, 0, other, 5000)
    ensures UdpReceiveAsWritten(buf, DONE, 0, IpAddress(0x7F00_0001), 5000).value.sender.ip
      != IpAddress(0x7F00_0001)
  {
  }

  /** `UdpSocket::receive` as evidently intended: the sender is the address and
      port the transport reports. */
  function UdpReceive(buf: seq<u8>, code: int, size: nat, ip: IpAddress, port: u16)
    : (r: Result<ReceivedRaw, Error>)
    requires IsKnownStatus(code)
    requires code == DONE ==> size <= |buf|
    ensures r.Ok? <==> code == DONE
    ensures r.Err? ==> CodeToErr(code) == Err(r.error)
    ensures r.Ok? ==> |r.value.data| == size && buf == r.value.data + buf[size..]
  {
    match CodeToErr(code)
    case Err(e) => Err(e)
    case Ok(_) => Ok(ReceivedRaw(buf[..size], IpAndPort(ip, port)))
  }

  /** The corrected receive reports the sender the transport saw, and differs from
      the code as written in that address alone. */
  lemma UdpReceiveReportsSender(buf: seq<u8>, code: int, size: nat, ip: IpAddress, port: u16)
    requires IsKnownStatus(code)
    requires code == DONE ==> size <= |buf|
    ensures UdpReceive(buf, code, size, ip, port).Ok? ==>
      UdpReceive(buf, code, size, ip, port).value.sender == IpAndPort(ip, port)
    ensures UdpReceive(buf, code, size, ip, port).Err? ==>
      UdpReceive(buf, code, size, ip, port) == UdpReceiveAsWritten(buf, code, size, ip, port)
    ensures UdpReceive(buf, code, size, ip, port).Ok? ==>
      UdpReceive(buf, code, size, ip, port).value.data
        == UdpReceiveAsWritten(buf, code, size, ip, port).value.data
    ensures ip == NO_ADDRESS ==>
      UdpReceive(buf, code, size, ip, port) == UdpReceiveAsWritten(buf, code, size, ip, port)
  {
  }

  /** `UdpSocket::receive_packet` as written: the same temporary swallows the
      sender's address; the packet's contents are the transport's business. */
  function ReceivePacketAsWritten(code: int, ip: IpAddress, port: u16): (r: Result<IpAndPort, Error>)
    requires IsKnownStatus(code)
    ensures r.Ok? <==> code == DONE
    ensures r.Err? ==> CodeToErr(code) == Err(r.error)
    ensures r.Ok? ==> r.value == IpAndPort(NO_ADDRESS, port)
  {
    var remote := IpAndPort(NO_ADDRESS, port);
    match CodeToErr(code)
    case Err(e) => Err(e)
    case Ok(_) => Ok(remote)
  }

  /** The packet from 127.0.0.1 is reported as coming from no address. */
  lemma ReceivePacketAsWrittenLosesSender()
    ensures ReceivePacketAsWritten(DONE, IpAddress(0x7F00_0001), 5000)
      == Ok(IpAndPort(NO_ADDRESS, 5000))
  {
  }

  /** `UdpSocket::receive_packet` as evidently intended. */
  function ReceivePacket(code: int, ip: IpAddress, port: u16): (r: Result<IpAndPort, Error>)
    requires IsKnownStatus(code)
    ensures r.Ok? <==> code == DONE
    ensures r.Err? ==> CodeToErr(code) == Err(r.error)
  {
    match CodeToErr(code)
    case Err(e) => Err(e)
    case Ok(_) => Ok(IpAndPort(ip, port))
  }

  /** The corrected packet receive reports the transport's sender, and agrees with
      the raw receive on who sent the datagram. */
  lemma ReceivePacketReportsSender(buf: seq<u8>, code: int, size: nat, ip: IpAddress, port: u16)
    requires IsKnownStatus(code)
    requires code == DONE ==> size <= |buf|
    ensures ReceivePacket(code, ip, port).Ok? ==> ReceivePacket(code, ip, port).value == IpAndPort(ip, port)
    ensures ReceivePacket(code, ip, port).Ok? ==>
      UdpReceive(buf, code, size, ip, port).value.sender == ReceivePacket(code, ip, port).value
  {
  }

  /** The port and address `UdpSocket::bind` hands the transport. */
  datatype BindCall = BindCall(port: u16, ip: IpAddress)

  /** An absent port becomes 0 (any free port) and an absent address becomes
      `IpAddress::from(0)`. */
  function BindArguments(port: Option<u16>, ip: Option<IpAddress>): (c: BindCall)
    ensures port.Some? ==> c.port == port.value
    ensures port.None? ==> c.port == 0
    ensures ip.Some? ==> c.ip == ip.value
    ensures ip.None? ==> c.ip == NO_ADDRESS
  {
    BindCall(if port.Some? then port.value else 0, if ip.Some? then ip.value else IpAddress(0))
  }

  /** `UdpSocket::bind`, given the transport's answer to each call it might make. */
  function Bind(port: Option<u16>, ip: Option<IpAddress>, transport: BindCall -> int): (r: Result<(), Error>)
    requires IsKnownStatus(transport(BindArguments(port, ip)))
    ensures r.Ok? <==> transport(BindArguments(port, ip)) == DONE
    ensures StatusOf(r) == transport(BindArguments(port, ip))
  {
    CodeToErr(transport(BindArguments(port, ip)))
  }

  /** Leaving an argument out of `bind` is the same as passing its default. */
  lemma BindDefaults(port: Option<u16>, ip: Option<IpAddress>, transport: BindCall -> int)
    requires IsKnownStatus(transport(BindArguments(port, ip)))
    ensures port.None? ==> BindArguments(port, ip) == BindArguments(Some(0), ip)
    ensures ip.None? ==> BindArguments(port, ip) == BindArguments(port, Some(NO_ADDRESS))
    ensures port.None? && ip.None? ==>
      Bind(port, ip, transport) == Bind(Some(0), Some(NO_ADDRESS), transport)
  {
    CodeToErrRoundTrip(transport(BindArguments(port, ip)), Ok(()));
  }

  /** The port and address `TcpListener::listen` hands the transport: an absent
      address is the transport's "any address". */
  function ListenArguments(port: u16, address: Option<IpAddress>): (c: BindCall)
    ensures c.port == port
    ensures address.Some? ==> c.ip == address.value
    ensures address.None? ==> c.ip == ANY_ADDRESS
  {
    BindCall(port, if address.Some? then address.value else ANY_ADDRESS)
  }

  /** `TcpListener::listen`: the transport's status through `code_to_err`. */
  function Listen(port: u16, address: Option<IpAddress>, transport: BindCall -> int): (r: Result<(), Error>)
    requires IsKnownStatus(transport(ListenArguments(port, address)))
    ensures r.Ok? <==> transport(ListenArguments(port, address)) == DONE
    ensures StatusOf(r) == transport(ListenArguments(port, address))
  {
    CodeToErr(transport(ListenArguments(port, address)))
  }

  /** Listening without an address listens on the "any" address. That is 0.0.0.0,
      the address `bind` falls back to as well, so both hand the transport the same
      call for the same port. */
  lemma ListenDefaults(port: u16, transport: BindCall -> int)
    requires IsKnownStatus(transport(ListenArguments(port, None)))
    ensures Listen(port, None, transport) == Listen(port, Some(ANY_ADDRESS), transport)
    ensures ListenArguments(port, None) == BindArguments(Some(port), None)
    ensures Listen(port, None, transport) == Bind(Some(port), None, transport)
  {
  }

  /** The timeout `SocketSelector::wait` hands the transport: none means 0 µs. */
  function WaitTimeout(timeout: Option<Times.Time>): (t: Times.Time)
    ensures timeout.Some? ==> t == timeout.value
    ensures timeout.None? ==> Times.AsMicroseconds(t) == 0
  {
    if timeout.Some? then timeout.value else Times.Time(0)
  }

  /** `SocketSelector::wait`, given the transport's answer for each timeout: the C
      boolean it returns, read as "nonzero means some socket is ready". */
  function Wait(timeout: Option<Times.Time>, transport: Times.Time -> int): (ready: bool)
    ensures timeout.None? ==> (ready <==> transport(Times.Default()) != 0)
    ensures timeout.Some? ==> (ready <==> transport(timeout.value) != 0)
  {
    transport(WaitTimeout(timeout)) != 0
  }

  /** Waiting with no timeout is the same as passing the zero duration, which the
      library reads as "wait until some socket is ready, however long that takes";
      a given timeout is passed on as it is. */
  lemma WaitDefaultIsZero(timeout: Times.Time, transport: Times.Time -> int)
    ensures Wait(None, transport) <==> transport(Times.Time(0)) != 0
    ensures Wait(Some(timeout), transport) <==> transport(timeout) != 0
    ensures Wait(None, transport) == Wait(Some(Times.Default()), transport)
    ensures Wait(None, transport) == Wait(Some(Times.Microseconds(0)), transport)
  {
  }
}
