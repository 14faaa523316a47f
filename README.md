# yudp: a Dafny model of the datagram core

yudp is a Go UDP socket layer built for high packet rates.

- On Linux it receives datagrams in batches with `recvmmsg` and dispatches each one to a caller's handler.
- On other platforms it reads one datagram per call.
- A configured buffer policy decides where each datagram's bytes live: a fresh buffer, a pooled buffer, or one shared scratch buffer.

Addresses are IPv4 only: a host-order `uint32` and a `uint16` port.

This project models the sequential logic of that core and proves properties of it:

- `intip.dfy` (module `IntIp`): the IPv4 codec `ip2int`/`int2ip`. It also covers the dotted text of an address and the JSON form of the `IntIp` logging type.
- `udp_linux.dfy` (module `UdpLinux`): the Linux build.
  - The `YudpAddr{IP, Port}` value, with its nil-aware `Equals`, `Copy`, `hostDidRoam`, `String` and `NewUDPAddrFromString`.
  - `NewListener`'s setup sequence, including the default batch size of 64.
  - The hand-made `sockaddr_in` bytes written by `WriteTo` and read back by `LocalAddr` and by `Listen`.
  - One iteration of the batched dispatch loop.
- `udp_generic.dfy` (module `UdpGeneric`): the one-packet-per-call build.
  - Its `net.UDPAddr`-based address, with `Equals`, `hostDidRoam`, `NewUDPAddrFromString`, `udp2ip` and `udp2ipInt`.
  - A `Listener` class whose `Iterate` method is one turn of the receive loop: the policy step (pool, keep, or allocate), then one read and at most one handler call.
- Support modules:
  - `pool.dfy` (`Pool`): the `sync.Pool` of receive buffers the pooled policy draws from.
  - `go_types.dfy` (`GoTypes`): Go's integer widths, nil, panics and errors.
  - `big_endian.dfy` (`BigEndian`): a reference big-endian codec. Go's `encoding/binary` formulas are proved equal to it.
  - `text.dfy` (`Text`): `strings.Split` and the decimal form of a number.
  - `option.dfy` (`Options`): the configuration value and `YudpMTU = 1472`.

Modelling conventions:

- A Go pointer that may be nil is an `Option`.
- Go code that panics on some input returns `Run.Panicked` when the source does not guard that input. Examples: a nil address in `Copy`, `String`, `WriteTo`, `udp2ip` or `udp2ipInt`, and an unparsable IP in the Linux `NewUDPAddrFromString`.
- Where the panic comes from a slice that is too short, the requirement is a precondition instead. Examples: `ip2int` on fewer than 4 bytes, and a name buffer shorter than 8 bytes.
- Each system call's answer (an error number, the count of messages, the bytes of an address) is an input to the operation that makes the call.
- Go's `|` of shifted bytes is written `+`, which is equal because the bits are disjoint.
- Go's `x & mask >> k` then `byte(...)` is written `x / 2^k % 256`.
- Both builds share one package name in Go. Here they are the two modules `UdpLinux` and `UdpGeneric`, and lemmas relate them.

Four facts about `NewListener` (udp_linux.go:54-104) that the model states as they are:

- It requests the receive and send buffer sizes (udp_linux.go:76-81) but ignores the errors of both calls. They are therefore not among its inputs.
- Socket option 0x0F, which is `SO_REUSEPORT` on Linux, is set every time (udp_linux.go:83-85), even when `ReusePort` is false. A failure to set it is returned.
- It binds `SockaddrInet4{Port: opt.Port}` (udp_linux.go:87), that is, the wildcard address 0.0.0.0: `opt.Addr` is ignored. So `Bind(port)` carries only the port.
- Only a failed `socket` is followed by `Close` (udp_linux.go:62-65). After a later failure the open descriptor is dropped without being closed (udp_linux.go:83-95); see "## Findings".

## Model

| member | source | states |
|---|---|---|
| `IntIp.Ip2Int` | intip.go:20-25 | a 16-byte IP gives the big-endian number in its last 4 bytes; any other IP gives the number in its first 4; fewer than 4 bytes is excluded, because Go's read panics |
| `IntIp.Int2Ip` | intip.go:27-31 | the result has exactly 4 bytes; byte 0 is bits 31..24, byte 1 bits 23..16, byte 2 bits 15..8 and byte 3 bits 7..0; the bytes denote `nn` big-endian |
| `IntIp.Ip2IntOfInt2Ip` | intip.go:20-31 | `ip2int(int2ip(n)) == n` for every `uint32` |
| `IntIp.Int2IpOfIp2Int` | intip.go:20-31 | `int2ip(ip2int(b)) == b` for every 4-byte `b` |
| `IntIp.Ip2IntOfMapped` | intip.go:21-23 | of a 16-byte IP only bytes 12..15 count: two 16-byte IPs with the same last 4 bytes decode alike, and like those 4 bytes alone |
| `IntIp.Ip2IntOfV4InV6` | intip.go:21-23 | the IPv4-mapped 16-byte form of an address decodes to the same number as its 4-byte form |
| `IntIp.IpString` | intip.go:13 | `net.IP.String` of a 4-byte IP holds only digits and dots, and cut at its dots gives exactly the canonical decimal forms of the four bytes, in order |
| `IntIp.IpStringInjective` | intip.go:13 | distinct 4-byte IPs have distinct dotted text |
| `IntIp.String` | intip.go:12-14 | the dotted text cut at its dots gives exactly the canonical decimal forms of the address's four bytes, most significant first, and each reads back as its byte |
| `IntIp.StringInjective` | intip.go:12-14 | `IntIp.String` maps distinct addresses to distinct text |
| `IntIp.MarshalJSON` | intip.go:16-18 | never fails; the output is the `String` form between exactly one pair of double quotes, which appear nowhere else |
| `BigEndian.Uint16` | udp_linux.go:166 | `binary.BigEndian.Uint16` is the big-endian value of the first 2 bytes |
| `BigEndian.Uint32` | intip.go:24 | `binary.BigEndian.Uint32` is the big-endian value of the first 4 bytes |
| `BigEndian.PutUint32` | intip.go:29 | `binary.BigEndian.PutUint32` writes the 4 big-endian bytes of the number |
| `BigEndian.Uint32OfPutUint32` | intip.go:29 | reading back what `PutUint32` wrote gives the number |
| `BigEndian.PutUint32OfUint32` | intip.go:24 | writing back what `Uint32` read from 4 bytes gives those bytes |
| `Text.JoinSplit` | udp_linux.go:32 | `strings.Split` loses nothing: joining the pieces with the separator gives the string back |
| `Text.Split` | udp_linux.go:32 | `strings.Split` with a one-character separator: no piece contains the separator, and there is one piece more than there are separators |
| `Text.SplitHasTwoPieces` | udp_linux.go:32-35 | the split has at least two pieces exactly when the string contains the separator |
| `Text.DecimalString` | udp_linux.go:244 | `fmt`'s `%v` of a port: a nonempty string of decimal digits with no leading zero |
| `Text.DecimalValueOfString` | udp_linux.go:244 | the decimal text of a number reads back as that number |
| `GoTypes.ToUint16` | udp_linux.go:40 | Go's `uint16(port)`: a value in 0..65535 that is congruent to the input modulo 2^16, and the input itself when it is already in range |
| `UdpLinux.NewUDPAddr` | udp_linux.go:27-29 | the address whose `udp2ipInt` is `ip`, with port `port` |
| `UdpLinux.String` | udp_linux.go:243-245 | a nil receiver panics; otherwise the text holds exactly one ':', with the dotted IP before it and the decimal port after it |
| `UdpLinux.NewUDPAddrFromString` | udp_linux.go:31-42 | nil exactly when there is no ':'; a panic exactly when there is a ':' and the IP parser gives fewer than 4 bytes; otherwise the IP is `ip2int` of the parsed text before the first ':' and the port is `Atoi` of the text after it, cut to 16 bits |
| `UdpLinux.FromStringOfString` | udp_linux.go:31-42 | parsing the `String` text of an address gives the same address back, given that `net.ParseIP` returns the IPv4-mapped bytes of the dotted text and `strconv.Atoi` reads a decimal number |
| `UdpLinux.Equals` | udp_linux.go:229-234 | `Equals` is exactly equality of the optional values: two nils are equal, one nil is unequal to any address, and two addresses are equal iff IP and Port both match |
| `UdpLinux.EqualsIsEquivalence` | udp_linux.go:229-234 | `Equals` is reflexive, symmetric and transitive, on nil as on non-nil addresses |
| `UdpLinux.Copy` | udp_linux.go:236-241 | a nil receiver panics; otherwise the copy `Equals` the original |
| `UdpLinux.HostDidRoam` | udp_linux.go:255-257 | `hostDidRoam(a, b)` is `!a.Equals(b)`, which holds exactly when the optional values differ |
| `UdpLinux.Udp2Ip` | udp_linux.go:247-249 | a nil address panics; otherwise `udp2ip` gives 4 bytes that `ip2int` reads back as the address's IP |
| `UdpLinux.Udp2IpInt` | udp_linux.go:251-253 | a nil address panics; otherwise the result is the address's IP |
| `UdpLinux.Udp2IpAgrees` | udp_linux.go:247-253 | `udp2ip` and `udp2ipInt` panic on the same addresses, and otherwise `udp2ip` is `int2ip` of `udp2ipInt` |
| `UdpLinux.NewListener` | udp_linux.go:54-104 | a socket error is returned at once; later, the first failure among option 0x0F, bind and, only when `ReusePort` is set, `SO_REUSEPORT` is returned; `CloseOnExec` follows a successful socket and `Close` a failed one, and `Close` is issued on no other path; option 0x0F is set whenever the socket opened, whatever `ReusePort` says; buffer sizes are requested only when positive and their errors are ignored; on success the batch size 0 becomes 64, any other value and every other option field are unchanged |
| `UdpLinux.NewListenerReleasing` | udp_linux.go:54-104 | the intended setup: the same errors in the same order; on success the connection on `fd` with the batch size 0 replaced by 64 and every other option unchanged; and a `Close` exactly on the failing paths, as the last call |
| `UdpLinux.FailedBindLeaksSocket` | udp_linux.go:87-89 | a bind failure after the socket opened returns the error without closing the descriptor as written, and closes it as intended |
| `UdpLinux.LocalAddr` | udp_linux.go:122-146 | an errno is returned as the error; an `AF_INET` answer gives the port as the big-endian value of Data[0..1] and the IP as that of Data[2..5]; any other family gives IP 0 and Port 0 |
| `UdpLinux.LocalAddrOfSockaddr` | udp_linux.go:137-145 | decoding the socket address `WriteTo` builds, with `LocalAddr`'s formula, gives the original (IP, Port) back |
| `UdpLinux.DecodeName` | udp_linux.go:165-166 | `Listen` reads the port as the big-endian value of name bytes 2..3 and the IP as that of bytes 4..7 |
| `UdpLinux.DecodeNameOfSockaddr` | udp_linux.go:199-206 | `Listen`'s decoding of the name bytes for a sender's socket address gives the sender back |
| `UdpLinux.SockaddrOfDecodeName` | udp_linux.go:165-166 | re-encoding an address decoded from name bytes restores name bytes 2..7 |
| `UdpLinux.FillSockaddr` | udp_linux.go:198-206 | the hand-filled socket address has family `AF_INET`, the port as 2 big-endian bytes, the IP as 4 big-endian bytes, and zero padding |
| `UdpLinux.WriteTo` | udp_linux.go:194-227 | a panic exactly when the address is nil or the payload is empty; otherwise one `sendto` of the payload to the address's socket address, returning nil on success and an `OpError("sendto", errno)` on failure, with no retry |
| `UdpLinux.WriteToAnyPayload` | udp_linux.go:194-227 | as `WriteTo`, but an empty payload is sent as a zero-length datagram; a panic only for a nil address |
| `UdpLinux.EchoEmptyDatagram` | udp_linux.go:212 | echoing a zero-length datagram panics as written and sends an empty datagram to the sender as intended |
| `UdpLinux.ListenIteration` | udp_linux.go:155-171 | after a read error the handler is not called; otherwise it is called exactly `n` times, in index order; call i gets `buffers[i][:msgs[i].Len]`, whose length is `msgs[i].Len`, and the sender decoded from `names[i]` |
| `UdpGeneric.NewUDPAddr` | udp_generic.go:28-35 | the IP is the 4-byte form whose `ip2int` is `ip`, the port is `port` and there is no zone |
| `UdpGeneric.NewUDPAddrFromString` | udp_generic.go:37-50 | nil exactly when the string has no ':'; otherwise the IP is what `net.ParseIP` gives for the text before the first ':', unchecked, and the port is `Atoi` of the text after it, not truncated, with no zone |
| `UdpGeneric.IpEqual` | udp_generic.go:68 | `net.IP.Equal`: IPs of the same length are equal iff their bytes are; a 4-byte and a 16-byte IP are equal iff the long one is the IPv4-mapped form of the short one; IPs of any other pair of lengths are unequal |
| `UdpGeneric.To4` | udp_generic.go:123 | `net.IP.To4` gives nil or 4 bytes; it gives 4 bytes exactly for a 4-byte IP or an IPv4-mapped 16-byte one, and those 4 bytes are `net.IP.Equal` to the input |
| `UdpGeneric.IpEqualOnV4` | udp_generic.go:68 | on IPs that have a 4-byte form, `net.IP.Equal` compares exactly those forms |
| `UdpGeneric.IpEqualIsEquivalence` | udp_generic.go:68 | `net.IP.Equal` is reflexive, symmetric and transitive |
| `UdpGeneric.Equals` | udp_generic.go:64-69 | equal values are `Equals`; an `Equals` pair is both nil or both non-nil; two non-nil addresses are `Equals` exactly when their ports match and their IPs have the same 4-byte form, or, when the first has none, the same bytes |
| `UdpGeneric.EqualsIsEquivalence` | udp_generic.go:64-69 | `Equals` is reflexive, symmetric and transitive, on nil as on non-nil addresses |
| `UdpGeneric.EqualsIgnoresZone` | udp_generic.go:64-69 | addresses that differ only in the IPv6 zone are `Equals` |
| `UdpGeneric.MappedEqualsPlain` | udp_generic.go:64-69 | an address holding the 16-byte mapped IP, as parsed from text, `Equals` the 4-byte one from `NewUDPAddr` |
| `UdpGeneric.EqualsAgreesWithLinux` | udp_generic.go:64-69 | for addresses built from the same numbers, the generic `Equals` and the Linux `Equals` agree |
| `UdpGeneric.HostDidRoam` | udp_generic.go:126-128 | `hostDidRoam(a, b)` is `!a.Equals(b)`; so a roam implies the addresses differ, and one nil address or different ports is always a roam |
| `UdpGeneric.HostDidRoamAgreesWithLinux` | udp_generic.go:126-128 | for addresses built from the same numbers, both builds' `hostDidRoam` agree |
| `UdpGeneric.Udp2Ip` | udp_generic.go:118-120 | a nil address panics; otherwise the address's IP as stored |
| `UdpGeneric.Udp2IpInt` | udp_generic.go:122-124 | a panic exactly when the address is nil or its IP has no 4-byte form; otherwise the number whose `int2ip` is that form |
| `UdpGeneric.Udp2IpAgrees` | udp_generic.go:118-124 | where `udp2ipInt` gives a number, `udp2ip` gives an IP that is `net.IP.Equal` to `int2ip` of that number |
| `UdpGeneric.Udp2IpIntOfNewUDPAddr` | udp_generic.go:28-35 | `udp2ipInt` of `NewUDPAddr(ip, port)` is `ip` |
| `UdpGeneric.Listener.constructor` | udp_generic.go:92-93 | the loop starts with a fresh `YudpMTU`-byte buffer, a zero address and no handler calls |
| `UdpGeneric.Listener.Iterate` | udp_generic.go:95-115 | policy 1 reads into the pool's slice; policy 2 keeps the same buffer object; 0 and every other value read into a fresh buffer of length and capacity `YudpMTU`; a read error calls no handler and changes no buffer; a read otherwise makes exactly one handler call, with the buffer cut to the bytes read, which hold the datagram, and the sender's address; no other array changes |
| `UdpGeneric.FreshBuffersDoNotAlias` | udp_generic.go:101-104 | under the fresh policy two consecutive handler calls get different storage, and the first keeps its own bytes |
| `UdpGeneric.SharedBufferAliases` | udp_generic.go:99-100 | under the shared policy the second read overwrites the first handler's slice: that slice keeps its length, shows the second datagram in the bytes both datagrams cover, and keeps the first datagram's tail past a shorter second one |
| `UdpGeneric.PooledReadsUseThePoolSlice` | udp_generic.go:97-98 | under the pool policy the handler gets the pool's own slice, and a read is never longer than that slice's length |
| `UdpGeneric.FailedReadKeepsLastDelivery` | udp_generic.go:108-111 | under every policy, a failed read after a delivered datagram makes no handler call, and the slice the last call got still holds that datagram |
| `Pool.GetDataSliceFromPool` | pool.go:16-18 | the slice the pool offers when it holds one, otherwise a fresh slice of length and capacity `YudpMTU` made by the pool's `New` (pool.go:5-9) |
| `Pool.PutDataSlice2Pool` | pool.go:11-14 | as written, the slice goes back to the pool with the length the caller had cut it to |
| `Pool.PutDataSlice2PoolFull` | pool.go:11-14 | as intended, the slice goes back at its full capacity |
| `Pool.PooledEchoTruncates` | pool.go:11-14 | under the pooled policy, a handler that returns its `data` to the pool after a short datagram makes the next, longer datagram read into that buffer come out cut to the short one's length; with the intended put it is read whole |

## Findings

| source | as written | input that shows it | evidently intended | confidence | as-written member | corrected member |
|---|---|---|---|---|---|---|
| udp_linux.go:87-89 | a failing `setsockopt` or `bind` (also lines 83-85 and 92-96) returns the error without closing the descriptor `socket` opened; the caller gets no connection, so nothing can close it | `NewListener` on a port already taken without `SO_REUSEPORT`: `bind` fails with `EADDRINUSE` | the descriptor is closed before the error is returned, as the `socket` failure path (lines 62-65) does | medium (not executed) | `UdpLinux.NewListener`, `UdpLinux.FailedBindLeaksSocket` | `UdpLinux.NewListenerReleasing` |
| pool.go:12 | `PutDataSlice2Pool` puts the slice back with the length its caller cut it to, because the reset to capacity (line 12) is commented out; `Listen` reads up to a slice's length | policy 1 with the echo handler of example/echo/echo.go:40-46: a 10-byte datagram, then a 100-byte one read into the same pooled buffer, which is delivered as its first 10 bytes | the slice is put back at its full capacity, so every read into it can take `YudpMTU` bytes | medium (not executed) | `Pool.PutDataSlice2Pool`, `Pool.PooledEchoTruncates` | `Pool.PutDataSlice2PoolFull` |
| udp_linux.go:212 | `WriteTo` passes `&b[0]` to `sendto`, which panics when the payload is empty | `b = []` with a non-nil address, e.g. a handler echoing a zero-length datagram back to its sender | an empty payload is sent as a zero-length UDP datagram, which UDP allows | medium (not executed) | `UdpLinux.WriteTo`, `UdpLinux.EchoEmptyDatagram` | `UdpLinux.WriteToAnyPayload` |

## Left out

- The socket system calls (`socket`, `setsockopt`, `bind`, `recvmmsg`, `sendto`, `getsockname`) are operating-system I/O. Their answers are inputs: `SetupReplies`, `RecvResult`, the `errno` of `WriteTo`, and the family and bytes given to `LocalAddr`.
- `ReadMulti` (udp_linux.go:174-192) only wraps `recvmmsg`. Its answer is the `RecvResult` input of `ListenIteration`.
- `SetRecvBuffer`, `SetSendBuffer`, `GetRecvBuffer` and `GetSendBuffer` are single option calls. `NewListener` records only that the two setters are called.
- `PrepareRawMessages` and `adjustMsgs` are not part of this model. Their results (`msgs`, `buffers`, `names`) are inputs of `ListenIteration`, so the Linux build's buffer policy is not modelled. Each buffer is taken to be as long as its capacity, so `ListenIteration` requires `msgs[i].Len <= |buffers[i]|`, where Go's `buffers[i][:Len]` needs only `Len <= cap(buffers[i])`.
- The memory layout of `rawSockaddrAny` and the `unsafe.Pointer` casts are left out. The model keeps only the byte order of the address fields.
- `SockaddrName` assumes a little-endian host for the 2 family bytes. `Listen` never reads those bytes, so no result depends on it.
- `Listen`'s `for {}` loops run forever. The model gives one iteration: `UdpLinux.ListenIteration` and `UdpGeneric.Listener.Iterate`.
- What the handler does is not modelled. Each call is recorded with its arguments.
- `pool.go` wraps `sync.Pool`, whose reuse is concurrent and nondeterministic. Which put-back slice a `Get` returns, if any, is the input `pooled` of `Pool.GetDataSliceFromPool`; the slice the loop gets is the input of `Listener.Iterate`, consulted only under policy 1.
- `net.ParseIP` and `strconv.Atoi` are library parsers. They are function parameters.
- `fmt.Sprintf`, `net.IP.String`, `net.IP.Equal`, `net.IP.To4` and `strings.Split` are modelled for the inputs the core gives them. `net.IP.String` is modelled for 4-byte IPs only.
- The generic build's `NewListener`, `WriteTo` and `LocalAddr` are thin wrappers over the `net` package: a listen-config call with its two error paths and a type assertion, one `WriteToUDP`, and a type switch on `LocalAddr`.
- `udp_windows.go` and `example/echo/echo.go` are a library callback and command-line glue.
- Concurrency and the handler's threading obligations under the shared and pooled policies are caller obligations. The code does not check them.
- Go's `int` is unbounded here. The values the core stores in it (ports, sizes, policies) come from the caller or from `strconv.Atoi`.
- `UdpGeneric.Listener.Iterate` does not state the contents of a freshly allocated buffer past the bytes read (Go zeroes them).
- `UdpGeneric.Listener.Iterate` models a datagram longer than the buffer as truncated to it, as a UDP read on the generic build's Unix platforms does. It does not model an error for it.
