/** The I2C transport both drivers talk to, reduced to an append-only log of
    the calls made into it. Bus timing, addressing and the bytes that travel
    back are not part of this model. */
module Transport {

  /** One byte on the bus. */
  type Byte = bv8

  /** One call into the transport, in the order the driver made it. A sleep
      of the calling thread is logged too, so that its position relative to
      the writes is visible. */
  datatype Event =
    | WriteRegister(reg: Byte, value: Byte)        // single register write
    | WriteRegisters(start: Byte, data: seq<Byte>) // block write from a start register
    | WriteBytes(data: seq<Byte>)                  // raw block write, no register
    | Sleep(micros: nat)                           // time.sleep of the caller

  /** The exceptions a driver operation can raise. */
  datatype Error =
    | TransportError  // raised by the bus on a failed write
    | IndexError      // a row number outside the six-entry tables
    | NameError       // a name that is bound nowhere in the driver

  datatype Option<T> = None | Some(value: T)

  /** How a driver operation ends: it returns, or it raises. */
  datatype Outcome = Ok | Raised(error: Error)
}
