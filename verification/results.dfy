/** Outcome types shared by the model: an optional value, and a value or the
    exception the Python code would raise instead of producing it. */
module Results {

  datatype Option<+T> = None | Some(value: T)

  /** The exceptions raised on the modelled paths. Each one ends the script
      before anything is printed. */
  datatype Error =
    | Unparsable        // ValueError: "does not appear to be an IPv4 or IPv6 network"
    | HostBitsSet       // ValueError: the strict network check found host bits
    | NegativeAddress   // ValueError: a negative integer is no IP address
    | AddressTooLarge   // ValueError: an integer beyond the IPv6 range

  /** A value, or the exception raised instead. The members make it usable
      with `:-`, which returns the exception unchanged. */
  datatype Result<+T> = Ok(value: T) | Err(error: Error)
  {
    predicate IsFailure() { Err? }

    function PropagateFailure<U>(): Result<U>
      requires Err?
    {
      Err(error)
    }

    function Extract(): T
      requires Ok?
    {
      value
    }
  }
}
