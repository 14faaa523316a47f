/** The listener's configuration value and the receive-buffer size constant. */
module Options {

  /** Size of a receive buffer: an Ethernet MTU of 1500 less 20 bytes of IPv4 and 8 of UDP header. */
  const YudpMTU: nat := 1472

  /**
   Which buffer a read goes into (`RecvDataSlicePolicy`): 1 draws one from the
   pool, 2 keeps reusing one buffer, 0 and every other value allocate a fresh
   `YudpMTU`-byte buffer for every read.
   */
  datatype YudpOption = YudpOption(
    Addr: string,
    Port: int,
    ReusePort: bool,
    RecvBufSize: int,
    SendBufSize: int,
    UdpBatchSize: int,
    RecvDataSlicePolicy: int)
}
