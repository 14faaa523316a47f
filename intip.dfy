/**
 The IPv4 address codec: a host-order `uint32` against the 4 network-order
 bytes of a `net.IP`, the dotted-decimal text `net.IP.String` gives for those
 bytes, and the JSON form of the `IntIp` logging helper.
 */
module IntIp {
  import opened GoTypes
  import opened BigEndian
  import opened Text

  /** The 12-byte prefix of an IPv4 address in 16-byte (IPv4-mapped IPv6) form. */
  const V4InV6Prefix: seq<byte> := [0, 0, 0, 0, 0, 0, 0, 0, 0, 0, 0xff, 0xff]

  /**
   `ip2int`: a 16-byte address gives the number in its last 4 bytes, any other
   the number in its first 4. Fewer than 4 bytes make `binary.BigEndian.Uint32`
   panic, so callers must pass at least 4.
   */
  function Ip2Int(ip: seq<byte>): (r: uint32)
    requires |ip| >= 4
    ensures |ip| == 16 ==> r == Value(ip[12..])
    ensures |ip| != 16 ==> r == Value(ip[..4])
  {
    if |ip| == 16 then
      assert ip[12..16] == ip[12..] == ip[12..16][..4];
      Uint32(ip[12..16])
    else
      Uint32(ip)
  }

  /** `int2ip`: a fresh 4-byte `net.IP` holding `nn` most significant byte first. */
  function Int2Ip(nn: uint32): (r: seq<byte>)
    ensures |r| == 4
    ensures r[0] == nn / 0x100_0000 && r[1] == nn / 0x1_0000 % 0x100
    ensures r[2] == nn / 0x100 % 0x100 && r[3] == nn % 0x100
    ensures Value(r) == nn
  {
    assert Pow256(4) == 0x1_0000_0000;
    ValueOfBytes(nn, 4);
    PutUint32(nn)
  }

  /** Decoding what `int2ip` wrote gives the number back. */
  lemma Ip2IntOfInt2Ip(nn: uint32)
    ensures Ip2Int(Int2Ip(nn)) == nn
  {
    assert Int2Ip(nn)[..4] == Int2Ip(nn);
  }

  /** Encoding what `ip2int` read from 4 bytes gives the bytes back. */
  lemma Int2IpOfIp2Int(b: seq<byte>)
    requires |b| == 4
    ensures Int2Ip(Ip2Int(b)) == b
  {
    assert b[..4] == b;
    ValueInjective(Int2Ip(Ip2Int(b)), b);
  }

  /** Of a 16-byte address only the last 4 bytes count; the first 12 are ignored. */
  lemma Ip2IntOfMapped(x: seq<byte>, y: seq<byte>)
    requires |x| == 16 && |y| == 16
    requires x[12..] == y[12..]
    ensures Ip2Int(x) == Ip2Int(y)
    ensures Ip2Int(x) == Ip2Int(x[12..])
  {
    assert x[12..][..4] == x[12..];
  }

  /** The IPv4-mapped 16-byte form of an address decodes like the 4-byte form. */
  lemma Ip2IntOfV4InV6(b: seq<byte>)
    requires |b| == 4
    ensures Ip2Int(V4InV6Prefix + b) == Ip2Int(b)
  {
    assert (V4InV6Prefix + b)[12..] == b == b[..4];
  }

  lemma Int2IpInjective(m: uint32, n: uint32)
    requires Int2Ip(m) == Int2Ip(n)
    ensures m == n
  {
  }

  lemma DigitsLack(s: string, c: char)
    requires IsDigits(s) && !('0' <= c <= '9')
    ensures c !in s
  {
  }

  /** Four digit strings joined by dots split back into those four strings. */
  lemma SplitDotted(d0: string, d1: string, d2: string, d3: string)
    requires IsDigits(d0) && IsDigits(d1) && IsDigits(d2) && IsDigits(d3)
    ensures Split(d0 + "." + d1 + "." + d2 + "." + d3, '.') == [d0, d1, d2, d3]
  {
    DigitsLack(d0, '.');
    DigitsLack(d1, '.');
    DigitsLack(d2, '.');
    DigitsLack(d3, '.');
    assert d0 + "." + d1 + "." + d2 + "." + d3 == d0 + ['.'] + (d1 + ['.'] + (d2 + ['.'] + d3));
    SplitAfterSep(d0, d1 + ['.'] + (d2 + ['.'] + d3), '.');
    SplitAfterSep(d1, d2 + ['.'] + d3, '.');
    SplitAfterSep(d2, d3, '.');
    SplitWithoutSep(d3, '.');
  }

  /**
   `net.IP.String` of a 4-byte address: dotted decimal. Cut at its dots it
   gives the canonical decimal forms of the four bytes, in order.
   */
  function IpString(ip: seq<byte>): (r: string)
    requires |ip| == 4
    ensures forall i :: 0 <= i < |r| ==> '0' <= r[i] <= '9' || r[i] == '.'
    ensures Split(r, '.') == [DecimalString(ip[0]), DecimalString(ip[1]), DecimalString(ip[2]), DecimalString(ip[3])]
  {
    SplitDotted(DecimalString(ip[0]), DecimalString(ip[1]), DecimalString(ip[2]), DecimalString(ip[3]));
    DecimalString(ip[0]) + "." + DecimalString(ip[1]) + "." + DecimalString(ip[2]) + "." + DecimalString(ip[3])
  }

  /** Distinct addresses have distinct dotted forms. */
  lemma IpStringInjective(a: seq<byte>, b: seq<byte>)
    requires |a| == 4 && |b| == 4
    requires IpString(a) == IpString(b)
    ensures a == b
  {
    DecimalStringInjective(a[0], b[0]);
    DecimalStringInjective(a[1], b[1]);
    DecimalStringInjective(a[2], b[2]);
    DecimalStringInjective(a[3], b[3]);
  }

  /**
   `IntIp.String`: the dotted form of the address. Cut at its dots it gives
   four decimal numbers, which read back as the address's bytes, most
   significant first.
   */
  function String(ip: uint32): (r: string)
    ensures Split(r, '.') ==
      [DecimalString(Int2Ip(ip)[0]), DecimalString(Int2Ip(ip)[1]), DecimalString(Int2Ip(ip)[2]), DecimalString(Int2Ip(ip)[3])]
    ensures forall k :: 0 <= k < 4 ==>
      IsDigits(Split(r, '.')[k]) && DecimalValue(Split(r, '.')[k]) == Int2Ip(ip)[k]
  {
    var b := Int2Ip(ip);
    var r := IpString(b);
    ghost var pieces := Split(r, '.');
    DecimalValueOfString(b[0]);
    DecimalValueOfString(b[1]);
    DecimalValueOfString(b[2]);
    DecimalValueOfString(b[3]);
    assert forall k :: 0 <= k < 4 ==> pieces[k] == DecimalString(b[k]);
    r
  }

  /** Distinct addresses log as distinct text. */
  lemma StringInjective(m: uint32, n: uint32)
    requires String(m) == String(n)
    ensures m == n
  {
    IpStringInjective(Int2Ip(m), Int2Ip(n));
    Int2IpInjective(m, n);
  }

  /**
   `IntIp.MarshalJSON`: never fails; the bytes are the dotted form between one
   pair of double quotes, and no quote appears inside.
   */
  function MarshalJSON(ip: uint32): (r: Result<seq<byte>>)
    ensures r.Ok?
    ensures |r.value| == |String(ip)| + 2
    ensures r.value[0] == '"' as int && r.value[|r.value| - 1] == '"' as int
    ensures forall i :: 0 < i < |r.value| - 1 ==> r.value[i] != '"' as int
    ensures forall i :: 0 <= i < |String(ip)| ==> r.value[i + 1] == String(ip)[i] as int
  {
    Ok(Ascii("\"" + String(ip) + "\""))
  }
}
