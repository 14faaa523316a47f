/**
 The generic build (every platform but Linux): an address embeds a
 `net.UDPAddr`, whose IP is a 4- or 16-byte `net.IP`, and `Listen` reads one
 datagram per call into a buffer chosen by the configured buffer policy.

 The standard library's socket calls are not modelled; a read's outcome is an
 input of the loop iteration that makes it.
 */
module UdpGeneric {
  import opened GoTypes
  import opened BigEndian
  import opened Text
  import opened Options
  import IntIp
  import UdpLinux

  /** `YudpAddr{net.UDPAddr}`: the IP bytes (empty for nil), the port and the IPv6 zone. */
  datatype YudpAddr = YudpAddr(IP: seq<byte>, Port: int, Zone: string)

  /** `NewUDPAddr`: the 4-byte form of `ip` and the port. */
  function NewUDPAddr(ip: uint32, port: uint16): (r: YudpAddr)
    ensures |r.IP| == 4 && IntIp.Ip2Int(r.IP) == ip
    ensures r.Port == port && r.Zone == ""
  {
    IntIp.Ip2IntOfInt2Ip(ip);
    YudpAddr(IntIp.Int2Ip(ip), port, "")
  }

  /**
   `NewUDPAddrFromString`: nil when `s` holds no ':'. Otherwise the IP is what
   `net.ParseIP` (`parseIP`) makes of the text before the first ':', kept as it
   is (nil for bad text), and the port what `strconv.Atoi` (`atoi`) makes of the
   text after it, not truncated.
   */
  function NewUDPAddrFromString(s: string, parseIP: string -> seq<byte>, atoi: string -> int)
    : (r: Option<YudpAddr>)
    ensures r.None? <==> ':' !in s
    ensures r.Some? ==> r.value.Zone == ""
    ensures r.Some? ==>
      && |Split(s, ':')| >= 2
      && r.value.IP == parseIP(Split(s, ':')[0])
      && r.value.Port == atoi(Split(s, ':')[1])
  {
    SplitHasTwoPieces(s, ':');
    var p := Split(s, ':');
    if |p| < 2 then None
    else
      var port := atoi(p[1]);
      Some(YudpAddr(parseIP(p[0]), port, ""))
  }

  /**
   `net.IP.Equal`: equal lengths compare byte for byte; a 4-byte and a 16-byte
   IP are equal when the long one is the IPv4-mapped form of the short one.
   */
  function IpEqual(ip: seq<byte>, x: seq<byte>): (r: bool)
    ensures |ip| == |x| ==> (r <==> ip == x)
    ensures |ip| == 4 && |x| == 16 ==> (r <==> x == IntIp.V4InV6Prefix + ip)
    ensures |ip| == 16 && |x| == 4 ==> (r <==> ip == IntIp.V4InV6Prefix + x)
    ensures r ==> |ip| == |x| || (|ip| == 4 && |x| == 16) || (|ip| == 16 && |x| == 4)
  {
    assert |x| == 16 ==> x == x[..12] + x[12..];
    assert |ip| == 16 ==> ip == ip[..12] + ip[12..];
    if |ip| == |x| then ip == x
    else if |ip| == 4 && |x| == 16 then x[..12] == IntIp.V4InV6Prefix && ip == x[12..]
    else if |ip| == 16 && |x| == 4 then ip[..12] == IntIp.V4InV6Prefix && ip[12..] == x
    else false
  }

  /** `net.IP.To4`: the 4-byte form of an IPv4 or IPv4-mapped IP; nil (empty) for anything else. */
  function To4(ip: seq<byte>): (r: seq<byte>)
    ensures |r| == 0 || |r| == 4
    ensures |r| == 4 <==> |ip| == 4 || (|ip| == 16 && ip[..12] == IntIp.V4InV6Prefix)
    ensures |r| == 4 ==> IpEqual(r, ip)
  {
    if |ip| == 4 then ip
    else if |ip| == 16 && ip[..12] == IntIp.V4InV6Prefix then ip[12..]
    else []
  }

  /** On IPs that have a 4-byte form, `net.IP.Equal` compares exactly those forms. */
  lemma IpEqualOnV4(ip: seq<byte>, x: seq<byte>)
    requires |To4(ip)| == 4 && |To4(x)| == 4
    ensures IpEqual(ip, x) <==> To4(ip) == To4(x)
  {
    if |ip| == 16 && |x| == 16 && To4(ip) == To4(x) {
      assert ip == ip[..12] + ip[12..] && x == x[..12] + x[12..];
    }
  }

  /** `net.IP.Equal` is reflexive, symmetric and transitive. */
  lemma IpEqualIsEquivalence(a: seq<byte>, b: seq<byte>, c: seq<byte>)
    ensures IpEqual(a, a)
    ensures IpEqual(a, b) == IpEqual(b, a)
    ensures IpEqual(a, b) && IpEqual(b, c) ==> IpEqual(a, c)
  {
    if IpEqual(a, b) && IpEqual(b, c) && |a| == 16 && |c| == 16 {
      assert a == a[..12] + a[12..] && c == c[..12] + c[12..];
    }
  }

  /** The host part of two addresses agrees: the same 4-byte form when the first has one, else the same bytes. */
  predicate SameHost(ip: seq<byte>, x: seq<byte>)
  {
    if |To4(ip)| == 4 then To4(ip) == To4(x) else ip == x
  }

  /** `Equals` on possibly nil addresses: nil equals only nil, otherwise `net.IP.Equal` and the ports. */
  function Equals(ua: Option<YudpAddr>, t: Option<YudpAddr>): (r: bool)
    ensures ua == t ==> r
    ensures r ==> (ua.None? <==> t.None?)
    ensures r && ua.Some? ==> ua.value.Port == t.value.Port && To4(ua.value.IP) == To4(t.value.IP)
    ensures ua.Some? && t.Some? ==>
      (r <==> (ua.value.Port == t.value.Port && SameHost(ua.value.IP, t.value.IP)))
  {
    if t.None? || ua.None? then t.None? && ua.None?
    else IpEqual(ua.value.IP, t.value.IP) && ua.value.Port == t.value.Port
  }

  /** `Equals` is reflexive, symmetric and transitive, on nil as on real addresses. */
  lemma EqualsIsEquivalence(a: Option<YudpAddr>, b: Option<YudpAddr>, c: Option<YudpAddr>)
    ensures Equals(a, a)
    ensures Equals(a, b) == Equals(b, a)
    ensures Equals(a, b) && Equals(b, c) ==> Equals(a, c)
  {
    if a.Some? && b.Some? && c.Some? {
      IpEqualIsEquivalence(a.value.IP, b.value.IP, c.value.IP);
    }
    if a.Some? && b.Some? {
      IpEqualIsEquivalence(a.value.IP, b.value.IP, b.value.IP);
    }
  }

  /** Only the IP and the port count: the zone is ignored. */
  lemma EqualsIgnoresZone(a: YudpAddr, zone: string)
    ensures Equals(Some(a), Some(a.(Zone := zone)))
  {
    IpEqualIsEquivalence(a.IP, a.IP, a.IP);
  }

  /** An address parsed from IPv4 text (16-byte mapped form) equals the 4-byte one `NewUDPAddr` makes. */
  lemma MappedEqualsPlain(ip: uint32, port: uint16)
    ensures Equals(Some(YudpAddr(IntIp.V4InV6Prefix + IntIp.Int2Ip(ip), port, "")), Some(NewUDPAddr(ip, port)))
  {
    var long := IntIp.V4InV6Prefix + IntIp.Int2Ip(ip);
    assert long[..12] == IntIp.V4InV6Prefix && long[12..] == IntIp.Int2Ip(ip);
  }

  /** The two builds agree on `Equals` for the addresses `NewUDPAddr` makes from the same numbers. */
  lemma EqualsAgreesWithLinux(ip1: uint32, port1: uint16, ip2: uint32, port2: uint16)
    ensures Equals(Some(NewUDPAddr(ip1, port1)), Some(NewUDPAddr(ip2, port2))) ==
      UdpLinux.Equals(Some(UdpLinux.NewUDPAddr(ip1, port1)), Some(UdpLinux.NewUDPAddr(ip2, port2)))
  {
    if IntIp.Int2Ip(ip1) == IntIp.Int2Ip(ip2) {
      IntIp.Int2IpInjective(ip1, ip2);
    }
  }

  /** `hostDidRoam`: the peer roamed exactly when the two addresses are not `Equals`. */
  function HostDidRoam(addr: Option<YudpAddr>, newaddr: Option<YudpAddr>): (r: bool)
    ensures r == !Equals(addr, newaddr)
    ensures r ==> addr != newaddr
    ensures addr.None? != newaddr.None? ==> r
    ensures addr.Some? && newaddr.Some? && addr.value.Port != newaddr.value.Port ==> r
  {
    !Equals(addr, newaddr)
  }

  /** The two builds agree on `hostDidRoam` for the addresses `NewUDPAddr` makes from the same numbers. */
  lemma HostDidRoamAgreesWithLinux(ip1: uint32, port1: uint16, ip2: uint32, port2: uint16)
    ensures HostDidRoam(Some(NewUDPAddr(ip1, port1)), Some(NewUDPAddr(ip2, port2))) ==
      UdpLinux.HostDidRoam(Some(UdpLinux.NewUDPAddr(ip1, port1)), Some(UdpLinux.NewUDPAddr(ip2, port2)))
  {
    EqualsAgreesWithLinux(ip1, port1, ip2, port2);
  }

  /** `udp2ip`: the address's own `net.IP`, as stored; a nil address panics. */
  function Udp2Ip(addr: Option<YudpAddr>): (r: Run<seq<byte>>)
    ensures r.Panicked? <==> addr.None?
    ensures r.Returned? ==> r.value == addr.value.IP
  {
    match addr
    case None => Panicked
    case Some(a) => Returned(a.IP)
  }

  /**
   `udp2ipInt`: the number in the 4-byte form of the IP. A nil address panics,
   and so does an IP without a 4-byte form, on which
   `binary.BigEndian.Uint32` reads the nil `To4` gives.
   */
  function Udp2IpInt(addr: Option<YudpAddr>): (r: Run<uint32>)
    ensures r.Panicked? <==> addr.None? || |To4(addr.value.IP)| != 4
    ensures r.Returned? ==> IntIp.Int2Ip(r.value) == To4(addr.value.IP)
  {
    if addr.None? then Panicked
    else
      var four := To4(addr.value.IP);
      if |four| < 4 then Panicked
      else
        assert four[..4] == four;
        BytesOfValue(four);
        Returned(Uint32(four))
  }

  /** Where `udp2ipInt` gives a number, it is the IPv4 address `udp2ip`'s IP denotes. */
  lemma Udp2IpAgrees(addr: Option<YudpAddr>)
    ensures Udp2IpInt(addr).Returned? ==>
      Udp2Ip(addr).Returned? && IpEqual(IntIp.Int2Ip(Udp2IpInt(addr).value), Udp2Ip(addr).value)
  {
  }

  /** `udp2ipInt` reads back the number `NewUDPAddr` was given. */
  lemma Udp2IpIntOfNewUDPAddr(ip: uint32, port: uint16)
    ensures Udp2IpInt(Some(NewUDPAddr(ip, port))) == Returned(ip)
  {
    IntIp.Int2IpOfIp2Int(NewUDPAddr(ip, port).IP);
    IntIp.Int2IpInjective(Udp2IpInt(Some(NewUDPAddr(ip, port))).value, ip);
  }

  // ---------------------------------------------------------------------
  // The receive loop

  /** A Go byte slice starting at the beginning of its backing array: the array and the length in use. */
  datatype Slice = Slice(data: array<byte>, len: nat)

  /** `ReadFromUDP`'s answer: an error, or the datagram and its sender. */
  datatype ReadFromUdp = ReadFailed | Received(packet: seq<byte>, from: YudpAddr)

  /** One call of the handler: the slice it was given and the sender. */
  datatype Delivery = Delivery(data: Slice, addr: YudpAddr)

  /**
   The state of a running `Listen`: the buffer the next read goes into, the
   last sender, and the handler calls made so far.
   */
  class Listener {
    const Option: YudpOption
    var buffer: Slice
    var udpAddr: YudpAddr
    var delivered: seq<Delivery>

    ghost predicate Valid()
      reads this
    {
      buffer.len <= buffer.data.Length
    }

    /** `Listen` starts with a fresh `YudpMTU`-byte buffer, a zero address and no handler calls. */
    constructor (opt: YudpOption)
      ensures Valid() && Option == opt
      ensures fresh(buffer.data) && buffer.len == buffer.data.Length == YudpMTU
      ensures udpAddr == YudpAddr([], 0, "") && delivered == []
    {
      Option := opt;
      var b := new byte[YudpMTU];
      buffer := Slice(b, YudpMTU);
      udpAddr := YudpAddr([], 0, "");
      delivered := [];
    }

    /**
     One iteration of `Listen`'s loop. The policy picks the buffer: 1 takes
     the slice the pool hands out (`fromPool`), 2 keeps the current one, 0 and
     every other value allocate a new `YudpMTU`-byte one. Then one read: on an
     error nothing else happens and the loop goes on; otherwise the datagram is
     copied into the buffer (cut to the slice's length, as a UDP read does) and
     the handler is called once with the buffer cut to the bytes read.
     */
    method Iterate(read: ReadFromUdp, fromPool: Slice)
      requires Valid() && fromPool.len <= fromPool.data.Length
      modifies this, buffer.data, fromPool.data
      ensures Valid()
      ensures Option.RecvDataSlicePolicy == 1 ==> buffer == fromPool
      ensures Option.RecvDataSlicePolicy == 2 ==> buffer == old(buffer)
      ensures Option.RecvDataSlicePolicy != 1 && Option.RecvDataSlicePolicy != 2 ==>
        fresh(buffer.data) && buffer.len == buffer.data.Length == YudpMTU
      ensures read.ReadFailed? ==>
        delivered == old(delivered) && udpAddr == old(udpAddr) &&
        unchanged(old(buffer.data)) && unchanged(fromPool.data)
      ensures read.Received? ==>
        var n := if |read.packet| < buffer.len then |read.packet| else buffer.len;
        && delivered == old(delivered) + [Delivery(Slice(buffer.data, n), read.from)]
        && buffer.data[..n] == read.packet[..n]
        && (buffer.data == old(buffer.data) ==> buffer.data[n..] == old(buffer.data[..])[n..])
        && (buffer.data == fromPool.data ==> buffer.data[n..] == old(fromPool.data[..])[n..])
        && udpAddr == read.from
      ensures old(buffer.data) != buffer.data ==> unchanged(old(buffer.data))
      ensures fromPool.data != buffer.data ==> unchanged(fromPool.data)
    {
      match Option.RecvDataSlicePolicy {
        case 1 =>
          buffer := fromPool;
        case 2 =>
        case _ =>
          var b := new byte[YudpMTU];
          buffer := Slice(b, YudpMTU);
      }
      if read.ReadFailed? {
        return;
      }
      var n := if |read.packet| < buffer.len then |read.packet| else buffer.len;
      var data := buffer.data;
      forall i | 0 <= i < n {
        data[i] := read.packet[i];
      }
      udpAddr := read.from;
      delivered := delivered + [Delivery(Slice(buffer.data, n), udpAddr)];
    }
  }

  /**
   Under the fresh-buffer policy two datagrams handed to consecutive handler
   calls live in different storage, so the first still holds its own bytes
   after the second read.
   */
  method FreshBuffersDoNotAlias(first: seq<byte>, second: seq<byte>, from: YudpAddr, opt: YudpOption)
    returns (distinct: bool, kept: seq<byte>)
    requires opt.RecvDataSlicePolicy != 1 && opt.RecvDataSlicePolicy != 2
    requires |first| <= YudpMTU && |second| <= YudpMTU
    ensures distinct
    ensures kept == first
  {
    var l := new Listener(opt);
    var none := new byte[0];
    var unused := Slice(none, 0);
    l.Iterate(Received(first, from), unused);
    var d0 := l.delivered[0];
    l.Iterate(Received(second, from), unused);
    var d1 := l.delivered[1];
    distinct := d0.data.data != d1.data.data;
    kept := d0.data.data[..d0.data.len];
  }

  /**
   Under the shared-buffer policy the second read overwrites the slice the
   first handler call was given: by design, that slice then shows the second
   datagram.
   */
  method SharedBufferAliases(first: seq<byte>, second: seq<byte>, from: YudpAddr, opt: YudpOption)
    returns (same: bool, seen: seq<byte>)
    requires opt.RecvDataSlicePolicy == 2
    requires |first| <= YudpMTU && |second| <= YudpMTU
    ensures same
    ensures |seen| == |first|
    ensures var m := if |first| < |second| then |first| else |second|;
      seen[..m] == second[..m] && seen[m..] == first[m..]
  {
    var l := new Listener(opt);
    var none := new byte[0];
    var unused := Slice(none, 0);
    l.Iterate(Received(first, from), unused);
    var d0 := l.delivered[0];
    ghost var before := d0.data.data[..];
    assert before[..|first|] == first;
    l.Iterate(Received(second, from), unused);
    var d1 := l.delivered[1];
    same := d0.data.data == d1.data.data;
    seen := d0.data.data[..d0.data.len];
    if |second| < |first| {
      assert seen[|second|..] == d0.data.data[|second|..][..|first| - |second|];
      assert before[|second|..][..|first| - |second|] == first[|second|..];
    }
  }

  /**
   Under the pool policy each read goes into the slice the pool hands out
   (here one of length `len` over `cap` bytes), and a read is never longer
   than that slice: a slice put back shortened (as `data`, the handler's
   argument, is) shortens every later read into it.
   */
  method PooledReadsUseThePoolSlice(packet: seq<byte>, from: YudpAddr, opt: YudpOption, len: nat, cap: nat)
    returns (used: bool, length: nat)
    requires opt.RecvDataSlicePolicy == 1
    requires len <= cap
    ensures used
    ensures length == if |packet| < len then |packet| else len
  {
    var l := new Listener(opt);
    var pooled := new byte[cap];
    var fromPool := Slice(pooled, len);
    l.Iterate(Received(packet, from), fromPool);
    var d := l.delivered[0];
    used := d.data.data == pooled;
    length := d.data.len;
  }

  /**
   A failed read after a delivered datagram, under every policy: no further
   handler call, and the slice the last call was given still holds its datagram.
   */
  method FailedReadKeepsLastDelivery(first: seq<byte>, from: YudpAddr, opt: YudpOption)
    returns (calls: nat, kept: seq<byte>)
    requires |first| <= YudpMTU
    ensures calls == 1
    ensures kept == first
  {
    var l := new Listener(opt);
    var pooled := new byte[YudpMTU];
    l.Iterate(Received(first, from), Slice(pooled, YudpMTU));
    var d0 := l.delivered[0];
    var other := new byte[YudpMTU];
    l.Iterate(ReadFailed, Slice(other, YudpMTU));
    calls := |l.delivered|;
    kept := d0.data.data[..d0.data.len];
  }
}
