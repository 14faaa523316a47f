/**
 Go's fixed-width integers, nil pointers, run-time panics and error values,
 as the rest of the model uses them.
 */
module GoTypes {

  /** Go `byte` (`uint8`). */
  type byte = x: int | 0 <= x < 0x100

  /** Go `uint16`. */
  type uint16 = x: int | 0 <= x < 0x1_0000

  /** Go `uint32`. */
  type uint32 = x: int | 0 <= x < 0x1_0000_0000

  /** Go's conversion `uint16(x)` of an `int`: keeps the low 16 bits (two's complement). */
  function ToUint16(x: int): (r: uint16)
    ensures 0 <= x < 0x1_0000 ==> r == x
    ensures (r - x) % 0x1_0000 == 0
  {
    x % 0x1_0000
  }

  /** A Go pointer or slice that may be nil. */
  datatype Option<+T> = None | Some(value: T)

  /** What evaluating a piece of Go code does: it returns a value or it panics. */
  datatype Run<+T> = Returned(value: T) | Panicked

  /** The `error` values the core produces: `*net.OpError` and a bare `syscall.Errno`. */
  datatype Error = OpError(op: string, errno: nat) | Errno(errno: nat)

  /** A Go `(T, error)` pair where exactly one side is meaningful. */
  datatype Result<+T> = Ok(value: T) | Err(error: Error)
}
