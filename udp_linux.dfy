/**
 The Linux build: an address is a plain `(uint32, uint16)` value, datagrams
 arrive in batches from `recvmmsg`, and the sender and the local-address query
 encode and decode the kernel's `sockaddr_in` bytes by hand.

 System calls are not modelled; what the kernel answers is an input to the
 operation that issues the call.
 */
module UdpLinux {
  import opened GoTypes
  import opened BigEndian
  import opened Text
  import opened Options
  import IntIp

  /** `syscall.AF_INET` on Linux. */
  const AF_INET: uint16 := 2

  /** The batch size `NewListener` puts in place of 0. */
  const DefaultUdpBatchSize: int := 64

  datatype YudpAddr = YudpAddr(IP: uint32, Port: uint16)

  /** `NewUDPAddr`: the address whose `udp2ipInt` is `ip`, with port `port`. */
  function NewUDPAddr(ip: uint32, port: uint16): (r: YudpAddr)
    ensures Udp2IpInt(Some(r)) == Returned(ip) && r.Port == port
  {
    YudpAddr(ip, port)
  }

  /** `YudpAddr.String`: the dotted address, a colon and the decimal port; a nil receiver panics. */
  function String(ua: Option<YudpAddr>): (r: Run<string>)
    ensures r.Panicked? <==> ua.None?
    ensures r.Returned? ==> Split(r.value, ':') == [IntIp.String(ua.value.IP), DecimalString(ua.value.Port)]
  {
    if ua.None? then Panicked else
    var a := ua.value;
    var ipText, portText := IntIp.String(a.IP), DecimalString(a.Port);
    assert forall i :: 0 <= i < |ipText| ==> ipText[i] != ':';
    IntIp.DigitsLack(portText, ':');
    SplitAfterSep(ipText, portText, ':');
    SplitWithoutSep(portText, ':');
    Returned(ipText + ":" + portText)
  }

  /**
   `NewUDPAddrFromString`: nil when `s` holds no ':'. Otherwise the text before
   the first ':' goes through `net.ParseIP` (`parseIP`) and `ip2int`, which
   panics when the parser gives fewer than 4 bytes (its nil for bad text), and
   the text between the first and the second ':' goes through `strconv.Atoi`
   (`atoi`, whose error is dropped) and is truncated to 16 bits.
   */
  function NewUDPAddrFromString(s: string, parseIP: string -> seq<byte>, atoi: string -> int)
    : (r: Run<Option<YudpAddr>>)
    ensures r == Returned(None) <==> ':' !in s
    ensures r.Panicked? <==> ':' in s && |parseIP(Split(s, ':')[0])| < 4
    ensures r.Returned? && r.value.Some? ==>
      && |Split(s, ':')| >= 2 && |parseIP(Split(s, ':')[0])| >= 4
      && r.value.value.IP == IntIp.Ip2Int(parseIP(Split(s, ':')[0]))
      && r.value.value.Port == ToUint16(atoi(Split(s, ':')[1]))
  {
    SplitHasTwoPieces(s, ':');
    var p := Split(s, ':');
    if |p| < 2 then
      Returned(None)
    else
      var port := atoi(p[1]);
      var ip := parseIP(p[0]);
      if |ip| < 4 then Panicked
      else Returned(Some(YudpAddr(IntIp.Ip2Int(ip), ToUint16(port))))
  }

  /**
   Reading back the text `String` writes gives the same address, as long as
   the parsers read the dotted form as its IPv4-mapped 16 bytes (what
   `net.ParseIP` returns for IPv4 text) and the decimal port as its number.
   */
  lemma FromStringOfString(a: YudpAddr, parseIP: string -> seq<byte>, atoi: string -> int)
    requires parseIP(IntIp.String(a.IP)) == IntIp.V4InV6Prefix + IntIp.Int2Ip(a.IP)
    requires atoi(DecimalString(a.Port)) == a.Port
    ensures String(Some(a)).Returned?
    ensures NewUDPAddrFromString(String(Some(a)).value, parseIP, atoi) == Returned(Some(a))
  {
    IntIp.Ip2IntOfV4InV6(IntIp.Int2Ip(a.IP));
    IntIp.Ip2IntOfInt2Ip(a.IP);
  }

  /** `Equals` on possibly nil addresses: nil equals only nil, otherwise IP and port must match. */
  function Equals(ua: Option<YudpAddr>, t: Option<YudpAddr>): (r: bool)
    ensures r <==> ua == t
  {
    if t.None? || ua.None? then t.None? && ua.None?
    else ua.value.IP == t.value.IP && ua.value.Port == t.value.Port
  }

  /** `Equals` is reflexive, symmetric and transitive, on nil as on real addresses. */
  lemma EqualsIsEquivalence(a: Option<YudpAddr>, b: Option<YudpAddr>, c: Option<YudpAddr>)
    ensures Equals(a, a)
    ensures Equals(a, b) == Equals(b, a)
    ensures Equals(a, b) && Equals(b, c) ==> Equals(a, c)
    ensures Equals(None, None) && !Equals(None, Some(YudpAddr(0, 0)))
  {
  }

  /** `Copy`: a new address equal to the receiver; a nil receiver panics. */
  function Copy(ua: Option<YudpAddr>): (r: Run<Option<YudpAddr>>)
    ensures r.Panicked? <==> ua.None?
    ensures r.Returned? ==> r.value.Some? && Equals(r.value, ua)
  {
    match ua
    case None => Panicked
    case Some(a) => Returned(Some(YudpAddr(a.IP, a.Port)))
  }

  /** `hostDidRoam`: the peer roamed exactly when the two addresses are not `Equals`. */
  function HostDidRoam(addr: Option<YudpAddr>, newaddr: Option<YudpAddr>): (r: bool)
    ensures r <==> addr != newaddr
    ensures r == !Equals(addr, newaddr)
  {
    !Equals(addr, newaddr)
  }

  /** `udp2ip`: the address as a 4-byte `net.IP`; a nil address panics. */
  function Udp2Ip(addr: Option<YudpAddr>): (r: Run<seq<byte>>)
    ensures r.Panicked? <==> addr.None?
    ensures r.Returned? ==> |r.value| == 4 && IntIp.Ip2Int(r.value) == addr.value.IP
  {
    match addr
    case None => Panicked
    case Some(a) =>
      IntIp.Ip2IntOfInt2Ip(a.IP);
      Returned(IntIp.Int2Ip(a.IP))
  }

  /** `udp2ipInt`: the address as a host-order integer; a nil address panics. */
  function Udp2IpInt(addr: Option<YudpAddr>): (r: Run<uint32>)
    ensures r.Panicked? <==> addr.None?
    ensures r.Returned? ==> r.value == addr.value.IP
  {
    match addr
    case None => Panicked
    case Some(a) => Returned(a.IP)
  }

  /** Both views of an address panic together, and otherwise denote the same IPv4 address. */
  lemma Udp2IpAgrees(addr: Option<YudpAddr>)
    ensures Udp2Ip(addr).Panicked? <==> Udp2IpInt(addr).Panicked?
    ensures Udp2Ip(addr).Returned? ==> Udp2Ip(addr).value == IntIp.Int2Ip(Udp2IpInt(addr).value)
  {
    if addr.Some? {
      IntIp.Int2IpOfIp2Int(Udp2Ip(addr).value);
    }
  }

  // ---------------------------------------------------------------------
  // The listener and its setup

  datatype YudpConn = YudpConn(sysFd: int, Option: YudpOption)

  /** The system calls `NewListener` issues, in order. */
  datatype SocketCall =
    | Socket
    | CloseOnExec
    | Close
    | SetRecvBufferForce(size: int)
    | SetSendBufferForce(size: int)
    | SetSockopt0x0F
    | Bind(port: int)
    | SetReusePort

  /**
   The kernel's answers to `NewListener`'s calls, as error numbers (0 is
   success). The answers to the two buffer-size calls are not listed: the
   source ignores them.
   */
  datatype SetupReplies = SetupReplies(socket: nat, sockopt0x0F: nat, bind: nat, reusePort: nat)

  /**
   `NewListener`: opens the socket on descriptor `fd`, puts 64 in place of a
   zero batch size, asks for the receive and send buffer sizes that are
   positive, always sets socket option 0x0F, binds the port and, only if asked
   for, sets `SO_REUSEPORT`. The first failing step's error is returned.
   Only a failed `socket` is followed by a `Close`: after any later failure
   the open descriptor is dropped without one.
   */
  method NewListener(opt: YudpOption, fd: int, os: SetupReplies)
    returns (r: Result<YudpConn>, calls: seq<SocketCall>)
    ensures |calls| >= 2 && calls[0] == Socket
    ensures r.Ok? <==>
      os.socket == 0 && os.sockopt0x0F == 0 && os.bind == 0 && (opt.ReusePort ==> os.reusePort == 0)
    ensures os.socket != 0 ==> r == Err(Errno(os.socket)) && calls == [Socket, Close]
    ensures os.socket == 0 ==> calls[1] == CloseOnExec
    ensures Close in calls <==> os.socket != 0
    ensures os.socket == 0 && os.sockopt0x0F != 0 ==> r == Err(Errno(os.sockopt0x0F))
    ensures os.socket == 0 && os.sockopt0x0F == 0 && os.bind != 0 ==> r == Err(Errno(os.bind))
    ensures os.socket == 0 && os.sockopt0x0F == 0 && os.bind == 0 && opt.ReusePort && os.reusePort != 0 ==>
      r == Err(Errno(os.reusePort))
    ensures r.Ok? ==> r.value.sysFd == fd
    ensures r.Ok? ==>
      r.value.Option.UdpBatchSize == if opt.UdpBatchSize == 0 then DefaultUdpBatchSize else opt.UdpBatchSize
    ensures r.Ok? ==> r.value.Option.(UdpBatchSize := opt.UdpBatchSize) == opt
    ensures SetRecvBufferForce(opt.RecvBufSize) in calls <==> os.socket == 0 && opt.RecvBufSize > 0
    ensures SetSendBufferForce(opt.SendBufSize) in calls <==> os.socket == 0 && opt.SendBufSize > 0
    ensures SetSockopt0x0F in calls <==> os.socket == 0
    ensures Bind(opt.Port) in calls <==> os.socket == 0 && os.sockopt0x0F == 0
    ensures SetReusePort in calls <==> os.socket == 0 && os.sockopt0x0F == 0 && os.bind == 0 && opt.ReusePort
  {
    calls := [Socket];
    if os.socket != 0 {
      calls := calls + [Close];
      r := Err(Errno(os.socket));
      return;
    }
    calls := calls + [CloseOnExec];
    var conf := opt;
    if conf.UdpBatchSize == 0 {
      conf := conf.(UdpBatchSize := DefaultUdpBatchSize);
    }
    var conn := YudpConn(fd, conf);
    if conf.RecvBufSize > 0 {
      calls := calls + [SetRecvBufferForce(conf.RecvBufSize)];
    }
    if conf.SendBufSize > 0 {
      calls := calls + [SetSendBufferForce(conf.SendBufSize)];
    }
    calls := calls + [SetSockopt0x0F];
    if os.sockopt0x0F != 0 {
      r := Err(Errno(os.sockopt0x0F));
      return;
    }
    calls := calls + [Bind(conf.Port)];
    if os.bind != 0 {
      r := Err(Errno(os.bind));
      return;
    }
    if conf.ReusePort {
      calls := calls + [SetReusePort];
      if os.reusePort != 0 {
        r := Err(Errno(os.reusePort));
        return;
      }
    }
    r := Ok(conn);
  }

  /**
   `NewListener` as evidently intended: the same steps and the same errors,
   and a descriptor opened by a successful `socket` is closed before any
   later error is returned, so a failed setup leaves no socket open.
   */
  method NewListenerReleasing(opt: YudpOption, fd: int, os: SetupReplies)
    returns (r: Result<YudpConn>, calls: seq<SocketCall>)
    ensures |calls| >= 2 && calls[0] == Socket
    ensures r.Ok? <==>
      os.socket == 0 && os.sockopt0x0F == 0 && os.bind == 0 && (opt.ReusePort ==> os.reusePort == 0)
    ensures os.socket != 0 ==> r == Err(Errno(os.socket))
    ensures os.socket == 0 && os.sockopt0x0F != 0 ==> r == Err(Errno(os.sockopt0x0F))
    ensures os.socket == 0 && os.sockopt0x0F == 0 && os.bind != 0 ==> r == Err(Errno(os.bind))
    ensures os.socket == 0 && os.sockopt0x0F == 0 && os.bind == 0 && opt.ReusePort && os.reusePort != 0 ==>
      r == Err(Errno(os.reusePort))
    ensures r.Ok? ==> r.value.sysFd == fd
    ensures r.Ok? ==>
      r.value.Option == opt.(UdpBatchSize := if opt.UdpBatchSize == 0 then DefaultUdpBatchSize else opt.UdpBatchSize)
    ensures Close in calls <==> r.Err?
    ensures r.Err? ==> calls[|calls| - 1] == Close
  {
    r, calls := NewListener(opt, fd, os);
    if r.Err? && os.socket == 0 {
      calls := calls + [Close];
    }
  }

  /**
   A bind that fails (the port is taken, say) after the socket was opened:
   as written the error comes back and the descriptor is never closed; as
   intended it is closed.
   */
  method FailedBindLeaksSocket(opt: YudpOption, fd: int, bindErrno: nat)
    returns (leaked: bool, released: bool)
    requires bindErrno != 0
    ensures leaked
    ensures released
  {
    var os := SetupReplies(0, 0, bindErrno, 0);
    var r, calls := NewListener(opt, fd, os);
    leaked := r.Err? && Close !in calls;
    var r', calls' := NewListenerReleasing(opt, fd, os);
    released := r'.Err? && Close in calls';
  }

  // ---------------------------------------------------------------------
  // The kernel's IPv4 socket address

  /**
   `syscall.RawSockaddrInet4` as bytes in memory: the family, the port's two
   bytes, the address's four bytes and eight bytes of padding.
   */
  datatype RawSockaddrInet4 = RawSockaddrInet4(Family: uint16, Port: seq<byte>, Addr: seq<byte>, Zero: seq<byte>)

  /** The socket address of `a` with port and address in network order. */
  function SockaddrOf(a: YudpAddr): RawSockaddrInet4
  {
    RawSockaddrInet4(AF_INET, Bytes(a.Port, 2), IntIp.Int2Ip(a.IP), [0, 0, 0, 0, 0, 0, 0, 0])
  }

  /** The 14 `Data` bytes of the generic `sockaddr` view of the address, which `getsockname` fills. */
  function SockaddrData(sa: RawSockaddrInet4): seq<byte>
  {
    sa.Port + sa.Addr + sa.Zero
  }

  /**
   The whole address as `recvmmsg` writes it into a name buffer: the family in
   host byte order (little-endian: x86 and arm64), then the `Data` bytes.
   */
  function SockaddrName(sa: RawSockaddrInet4): seq<byte>
  {
    [sa.Family % 0x100, sa.Family / 0x100] + SockaddrData(sa)
  }

  /** How `Listen` reads a sender out of a name buffer: port from bytes 2..3, address from 4..7. */
  function DecodeName(name: seq<byte>): (a: YudpAddr)
    requires |name| >= 8
    ensures a.Port == Value(name[2..4]) && a.IP == Value(name[4..8])
  {
    assert name[2..4][..2] == name[2..4] && name[4..8][..4] == name[4..8];
    YudpAddr(Uint32(name[4..8]), Uint16(name[2..4]))
  }

  /** Decoding the name the kernel writes for a sender gives the sender back. */
  lemma DecodeNameOfSockaddr(a: YudpAddr)
    ensures |SockaddrName(SockaddrOf(a))| == 16
    ensures DecodeName(SockaddrName(SockaddrOf(a))) == a
  {
    var name := SockaddrName(SockaddrOf(a));
    assert name[2..4] == Bytes(a.Port, 2);
    assert name[4..8] == IntIp.Int2Ip(a.IP);
    assert Pow256(2) == 0x1_0000;
    ValueOfBytes(a.Port, 2);
  }

  /** Conversely, re-encoding a decoded name restores its port and address bytes. */
  lemma SockaddrOfDecodeName(name: seq<byte>)
    requires |name| >= 8
    ensures SockaddrName(SockaddrOf(DecodeName(name)))[2..8] == name[2..8]
  {
    var a := DecodeName(name);
    BytesOfValue(name[2..4]);
    BytesOfValue(name[4..8]);
    assert IntIp.Int2Ip(a.IP) == Bytes(a.IP, 4);
    assert name[2..8] == name[2..4] + name[4..8];
  }

  /**
   `LocalAddr` given `getsockname`'s answer: its error number, the family and
   the 14 `Data` bytes it wrote. An IPv4 answer is read big-endian, port from
   bytes 0..1 and address from bytes 2..5; any other family gives 0.0.0.0:0.
   */
  function LocalAddr(errno: nat, family: uint16, data: seq<byte>): (r: Result<YudpAddr>)
    requires |data| == 14
    ensures errno != 0 ==> r == Err(Errno(errno))
    ensures errno == 0 && family != AF_INET ==> r == Ok(YudpAddr(0, 0))
    ensures errno == 0 && family == AF_INET ==> r == Ok(YudpAddr(Value(data[2..6]), Value(data[..2])))
  {
    assert data[..2] == data[0..2][..2] && data[2..6] == data[2..6][..4];
    assert Uint16(data[0..2]) == (data[0] as int) * 0x100 + data[1];
    assert Uint32(data[2..6]) ==
      (data[2] as int) * 0x100_0000 + (data[3] as int) * 0x1_0000 + (data[4] as int) * 0x100 + data[5];
    if errno != 0 then Err(Errno(errno))
    else if family == AF_INET then
      var port := (data[0] as int) * 0x100 + data[1];
      var ip := (data[2] as int) * 0x100_0000 + (data[3] as int) * 0x1_0000 + (data[4] as int) * 0x100 + data[5];
      Ok(YudpAddr(ip, port))
    else
      Ok(YudpAddr(0, 0))
  }

  /** What `WriteTo` puts in the socket address, `LocalAddr` reads back. */
  lemma LocalAddrOfSockaddr(a: YudpAddr)
    ensures |SockaddrData(SockaddrOf(a))| == 14
    ensures LocalAddr(0, SockaddrOf(a).Family, SockaddrData(SockaddrOf(a))) == Ok(a)
  {
    var data := SockaddrData(SockaddrOf(a));
    assert data[..2] == Bytes(a.Port, 2);
    assert data[2..6] == IntIp.Int2Ip(a.IP);
    assert Pow256(2) == 0x1_0000;
    ValueOfBytes(a.Port, 2);
  }

  // ---------------------------------------------------------------------
  // Sending

  /** One `sendto` call: the payload and the destination it was given. */
  datatype Sendto = Sendto(payload: seq<byte>, to: RawSockaddrInet4)

  /** What `WriteTo` did when it returned: the call it made and the error it returns (nil or an `OpError`). */
  datatype Written = Written(call: Sendto, err: Option<Error>)

  /**
   The first half of `WriteTo`: the socket address filled in byte by byte,
   port and address most significant byte first, padding left zero.
   */
  method FillSockaddr(a: YudpAddr) returns (rsa: RawSockaddrInet4)
    ensures rsa == SockaddrOf(a)
    ensures |rsa.Port| == 2 && Value(rsa.Port) == a.Port
    ensures |rsa.Addr| == 4 && Value(rsa.Addr) == a.IP
  {
    var port := new byte[2];
    port[0] := a.Port / 0x100;
    port[1] := a.Port % 0x100;
    var ip := new byte[4];
    ip[0] := a.IP / 0x100_0000 % 0x100;
    ip[1] := a.IP / 0x1_0000 % 0x100;
    ip[2] := a.IP / 0x100 % 0x100;
    ip[3] := a.IP % 0x100;
    rsa := RawSockaddrInet4(AF_INET, port[..], ip[..], [0, 0, 0, 0, 0, 0, 0, 0]);
    assert Bytes(a.Port, 2) == Bytes(a.Port / 0x100, 1) + [a.Port % 0x100];
    assert Bytes(a.Port / 0x100, 1) == [a.Port / 0x100];
    assert Pow256(2) == 0x1_0000;
    ValueOfBytes(a.Port, 2);
  }

  /**
   `WriteTo` as written: fills in the socket address and issues one `sendto`,
   whose error number is `errno`; an error is returned, not retried. A nil
   address panics at the first field read, and so does an empty payload,
   whose first byte's address is taken for the call.
   */
  method WriteTo(b: seq<byte>, addr: Option<YudpAddr>, errno: nat) returns (r: Run<Written>)
    ensures r.Panicked? <==> addr.None? || b == []
    ensures r.Returned? ==> r.value.call == Sendto(b, SockaddrOf(addr.value))
    ensures r.Returned? ==> r.value.err == if errno == 0 then None else Some(OpError("sendto", errno))
  {
    if addr.None? {
      return Panicked;
    }
    var rsa := FillSockaddr(addr.value);
    if b == [] {
      return Panicked;
    }
    var err := if errno == 0 then None else Some(OpError("sendto", errno));
    r := Returned(Written(Sendto(b, rsa), err));
  }

  /**
   `WriteTo` as evidently intended: the same, except that an empty payload is
   sent as a zero-length datagram instead of panicking.
   */
  method WriteToAnyPayload(b: seq<byte>, addr: Option<YudpAddr>, errno: nat) returns (r: Run<Written>)
    ensures r.Panicked? <==> addr.None?
    ensures r.Returned? ==> r.value.call == Sendto(b, SockaddrOf(addr.value))
    ensures r.Returned? ==> r.value.err == if errno == 0 then None else Some(OpError("sendto", errno))
  {
    if addr.None? {
      return Panicked;
    }
    var rsa := FillSockaddr(addr.value);
    var err := if errno == 0 then None else Some(OpError("sendto", errno));
    r := Returned(Written(Sendto(b, rsa), err));
  }

  /**
   Echoing a zero-length datagram back to its sender, as a handler that calls
   `WriteTo(data, &addr)` does: the code as written panics, the intended one
   sends an empty datagram to the sender.
   */
  method EchoEmptyDatagram(sender: YudpAddr) returns (asWritten: Run<Written>, intended: Run<Written>)
    ensures asWritten.Panicked?
    ensures intended == Returned(Written(Sendto([], SockaddrOf(sender)), None))
  {
    asWritten := WriteTo([], Some(sender), 0);
    intended := WriteToAnyPayload([], Some(sender), 0);
  }

  // ---------------------------------------------------------------------
  // Receiving

  /** The part of the kernel's message header read after a batch: the datagram's length. */
  datatype RawMessage = RawMessage(Len: uint32)

  /** `ReadMulti`'s answer: an error, or the number of messages filled. */
  datatype RecvResult = RecvFailed(error: Error) | Received(n: nat)

  /** One call of the handler: the datagram's bytes and its sender. */
  datatype HandlerCall = HandlerCall(data: seq<byte>, addr: YudpAddr)

  /**
   One iteration of `Listen`'s loop, after `adjustMsgs` has prepared `msgs`,
   `buffers` (each as long as its capacity) and `names`, and `ReadMulti` has
   answered `read`. On an error nothing is dispatched; otherwise the handler
   is called once per filled message, in the kernel's order, with the
   message's buffer cut to its length and the sender decoded from its name.
   */
  method ListenIteration(read: RecvResult, msgs: seq<RawMessage>, buffers: seq<seq<byte>>, names: seq<seq<byte>>)
    returns (calls: seq<HandlerCall>)
    requires read.Received? ==> read.n <= |msgs| && read.n <= |buffers| && read.n <= |names|
    requires read.Received? ==>
      forall i :: 0 <= i < read.n ==> msgs[i].Len <= |buffers[i]| && |names[i]| >= 8
    ensures read.RecvFailed? ==> calls == []
    ensures read.Received? ==> |calls| == read.n
    ensures read.Received? ==> forall i :: 0 <= i < read.n ==>
      calls[i].data == buffers[i][..msgs[i].Len] && |calls[i].data| == msgs[i].Len &&
      calls[i].addr == DecodeName(names[i])
  {
    calls := [];
    if read.RecvFailed? {
      return;
    }
    var udpAddr := YudpAddr(0, 0);
    for i := 0 to read.n
      invariant |calls| == i
      invariant forall j :: 0 <= j < i ==>
        calls[j].data == buffers[j][..msgs[j].Len] && calls[j].addr == DecodeName(names[j])
    {
      udpAddr := udpAddr.(IP := Uint32(names[i][4..8]));
      udpAddr := udpAddr.(Port := Uint16(names[i][2..4]));
      calls := calls + [HandlerCall(buffers[i][..msgs[i].Len], udpAddr)];
    }
  }
}
