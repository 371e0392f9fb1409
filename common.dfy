/** Shared result types. The Python code signals failure by raising; the model
    returns `Failure(e)` where `e` names the cause of the exception. */
module Common {

  datatype Option<+T> = None | Some(value: T)

  datatype Result<+R, +E> = Success(value: R) | Failure(error: E)

  /** Python's `abs` of a float. */
  function Abs(x: real): real { if x < 0.0 then -x else x }

  /** The exceptions the modelled code can raise, by cause. */
  datatype Error =
    | ZeroDivision        // ZeroDivisionError: `sr / fmin` or `sr / fmax` with a zero bound
    | NegativeDimensions  // ValueError: `np.zeros(max_tau + 1)` with a negative size
    | IndexOutOfRange     // IndexError: an index outside a numpy array
    | EmptyArgmin         // ValueError: `np.argmin` of an empty slice
    | ZeroRangeStep       // ValueError: `range(...)` with a step of 0
    | BadIntLiteral       // ValueError: `int(s)` of a string that is not an integer
    | NotInList           // ValueError: `list.index` of a value that is absent
}
