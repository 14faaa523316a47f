/**
 The buffer pool behind the pooled receive policy (policy 1): a `sync.Pool`
 of byte slices whose `New` makes a `YudpMTU`-byte one. Which put-back slice
 a `Get` returns, if any, is the runtime's choice and is an input here.
 */
module Pool {
  import opened GoTypes
  import opened Options
  import opened UdpGeneric

  /**
   `GetDataSliceFromPool`: a slice put back earlier when the pool offers one
   (`pooled`), otherwise a fresh one of length and capacity `YudpMTU`.
   */
  method GetDataSliceFromPool(pooled: Option<Slice>) returns (s: Slice)
    ensures pooled.Some? ==> s == pooled.value
    ensures pooled.None? ==> fresh(s.data) && s.len == s.data.Length == YudpMTU
  {
    if pooled.Some? {
      s := pooled.value;
    } else {
      var b := new byte[YudpMTU];
      s := Slice(b, YudpMTU);
    }
  }

  /**
   `PutDataSlice2Pool` as written: the slice goes back with the length the
   caller had cut it to, since the reset to its capacity is commented out.
   */
  function PutDataSlice2Pool(dataBuf: Slice): (r: Slice)
    ensures r.data == dataBuf.data && r.len == dataBuf.len
  {
    dataBuf
  }

  /** `PutDataSlice2Pool` as evidently intended: the slice goes back at its full capacity. */
  function PutDataSlice2PoolFull(dataBuf: Slice): (r: Slice)
    ensures r.data == dataBuf.data && r.len == r.data.Length
  {
    Slice(dataBuf.data, dataBuf.data.Length)
  }

  /**
   A handler that echoes and then returns its `data` to the pool, under the
   pooled policy: a short datagram followed by a longer one that gets the same
   pooled buffer. As written the second read is cut to the first datagram's
   length; as intended it is read whole.
   */
  method PooledEchoTruncates(first: seq<byte>, second: seq<byte>, from: YudpAddr, opt: YudpOption)
    returns (asWritten: nat, intended: nat)
    requires opt.RecvDataSlicePolicy == 1
    requires |first| < |second| <= YudpMTU
    ensures asWritten == |first|
    ensures intended == |second|
  {
    var l := new Listener(opt);
    var s := GetDataSliceFromPool(None);
    l.Iterate(Received(first, from), s);
    var back := GetDataSliceFromPool(Some(PutDataSlice2Pool(l.delivered[0].data)));
    l.Iterate(Received(second, from), back);
    asWritten := l.delivered[1].data.len;

    var l' := new Listener(opt);
    var s' := GetDataSliceFromPool(None);
    l'.Iterate(Received(first, from), s');
    var back' := GetDataSliceFromPool(Some(PutDataSlice2PoolFull(l'.delivered[0].data)));
    l'.Iterate(Received(second, from), back');
    intended := l'.delivered[1].data.len;
  }
}
