/** Option and Result, and the failures the controller client can raise. */
module Outcomes {

  datatype Option<+T> = None | Some(value: T)

  /** The exceptions of the client, and the one place where it never returns. */
  datatype Failure =
    | EncodeError            // str.encode('ascii') of a command raised UnicodeEncodeError
    | DecodeError            // bytes.decode('ascii') of a reply raised UnicodeDecodeError
    | InvalidValue(text: string)  // an enum constructor rejected `text` with ValueError
    | NoReply                // the peer fell silent inside the unbounded KEY1 poll loop

  datatype Result<+T> = Ok(value: T) | Err(error: Failure)
}
