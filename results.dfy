/** The failures the script can raise, as values. */
module Results {

  datatype Failure =
    | InvalidLiteral        // `int(s, 16)` rejected the digest string (ValueError)
    | InvalidDigit(c: char) // `int(c)` rejected a character of the binary string (ValueError)
    | UnsupportedOperand    // `&` met the float64 array `np.array([])` built from an empty vector (TypeError)

  datatype Result<T> = Ok(value: T) | Err(failure: Failure)
}
