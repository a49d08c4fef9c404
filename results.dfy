/** Option and Result values, and the failures the codecs report. */
module Results {
  datatype Option<T> = None | Some(value: T)

  datatype Result<T, E> = Ok(value: T) | Err(error: E)

  /** Why a read or a write fails; each stands for the Python exception named beside it. */
  datatype Error =
    | EmptyFile          // ValueError raised by the HIS reader for a zero-length file
    | BadText            // UnicodeDecodeError / UnicodeEncodeError: a text field is not ASCII
    | BadTimeInfo        // strptime or both int() attempts on the time-info block fail
    | ShortRead          // struct.error: fewer bytes left than an integer needs
    | OutOfRange         // struct.error: an integer does not fit its packed width
    | ZeroDivision       // ZeroDivisionError
    | NegativeDimension  // ValueError from np.zeros for a negative count
    | BadKey             // ValueError: int() refuses a sidecar key
    | BadIndex           // IndexError: a sidecar key points outside the list
    | LayoutMismatch     // AssertionError: a cursor or length check fails
    | BadReadLength      // ValueError: f.read() given a length below -1
    | ShapeMismatch      // ValueError: the cells read cannot be broadcast into a row
}
