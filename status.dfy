/**
 * The status values shared by the encoder and the decoder
 * (include/linux/lz4kd.h). Entry points return either a positive byte count
 * or one of these codes; 0 doubles as "incompressible".
 */
module Lz4kdStatus {

  datatype Status = Incompressible | Failed | ReadError | WriteError {

    /** The integer the C API returns for this status. */
    function Code(): (c: int)
      ensures c <= 0
      ensures c == 0 <==> this == Incompressible
      ensures c < 0 ==> FromCode(c) == Some(this)
    {
      match this
      case Incompressible => 0
      case Failed => -1
      case ReadError => -2
      case WriteError => -3
    }
  }

  datatype Option<T> = None | Some(value: T)

  /** Reads a returned integer back as a status; positive values are sizes. */
  function FromCode(c: int): (s: Option<Status>)
    ensures s.Some? <==> -3 <= c <= 0
  {
    if c == 0 then Some(Incompressible)
    else if c == -1 then Some(Failed)
    else if c == -2 then Some(ReadError)
    else if c == -3 then Some(WriteError)
    else None
  }
}
