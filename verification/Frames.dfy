/** The vocabulary shared by the transmit and receive halves. */
module Frames {
  type Byte = bv8
  type Payload = seq<Byte>

  /** Where in the transmit or receive lifecycle the user side believes a frame to be. */
  datatype FrameStatus = Free | Filled | OnTxQueue | OnFillQueue

  datatype Option<+T> = None | Some(value: T)
}
