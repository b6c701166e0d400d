/** Values shared by every part of the model: optional values, the scalar
    values a store row can hold, the error kinds the queries raise, and the
    Result type that carries them. */
module Basics {

  datatype Option<+T> = None | Some(value: T)

  /** A scalar property value as the graph store or the switch-port database
      hands it back: null, a text, or an integer. */
  datatype Value = Null | Str(s: string) | Int(i: int)

  /** Python truthiness of a scalar: None, "" and 0 are false. */
  predicate Truthy(v: Value) {
    match v
    case Null => false
    case Str(s) => s != ""
    case Int(i) => i != 0
  }

  /** One fetched record: column name to value, as a dict-like record. */
  type Row = map<string, Value>

  /** row[key], with Python's KeyError when the key is absent. */
  function Get(row: Row, key: string): Result<Value> {
    if key in row then Ok(row[key]) else Err(MissingKey(key))
  }

  /** The exceptions the modelled code raises. */
  datatype Error =
    | BadAddress                          // ipaddress rejects an address text (a ValueError)
    | BadNetmask                          // ipaddress rejects the text after '/' (a ValueError)
    | HostBitsSet                         // strict network parse of a block with host bits (a ValueError)
    | MissingMask                         // IndexError: split('/')[1] of a text without '/'
    | MissingKey(key: string)             // KeyError on a dict lookup
    | HostnameLookupFailure(message: string)
    | RTypeNotSupported(supported: seq<string>)  // OutputError("RType Not Supported", ...)
    | NoCidrResults(message: string)      // ResultError("No CIDR Results", ...)
    | NoSelector                          // Exception("Must pass in group or nFilter")

  /** The errors ipaddress raises as ValueError. */
  predicate IsValueError(e: Error) {
    e.BadAddress? || e.BadNetmask? || e.HostBitsSet?
  }

  datatype Result<+T> = Ok(value: T) | Err(error: Error) {
    predicate IsFailure() { Err? }

    function PropagateFailure<U>(): Result<U>
      requires Err?
    {
      Err(error)
    }

    function Extract(): T
      requires Ok?
    {
      value
    }
  }
}
